# Verification of the LCL repository's stateful and algorithmic cores

A Dafny 4.11 model of those parts of the repository whose correctness does not show in any one function: the pairing
protocol with its crash-safe trust, the grammar analyser, project and localization evaluation, and the supporting
cores around them. `dafny verify dfyconfig.toml` checks all of it.

## What is modelled

**Pairing** (`Devices`, `DeviceNames`, `Pairing`, `PairingProtocol`, `PairingInvariant`, `PairingReservation`,
`PairingTheorems`, `PairingAnswers`, `PairingDecisions`, `PairingDenial`). The registry and the pairing file are
classes whose methods read, change, prune and store as the Rust methods do, with a write that may fail before or after
it took effect. The protocol is a transition system over the two files and the one call of `present` that holds the
pairing lock between its writes: a crash is possible at each point, and registry changes interleave because they take
only the registry's lock. Random ids and codes are fresh, and SHA-256 is an injective constructor. What each call
answers and does is also told from the files alone, without the steps of the call. Only the theorem on denials assumes
anything about the clock, and two lemmas say exactly what.

**Grammars** (`Ebnf*`). A grammar is followed from its text: the tokenizer takes one token at a time off the front;
the parser is a class with a position; the nullable, productive and reachable sets are loops over sets; the cycle
search is recursive with an accumulating set. All are proved against derivations, in which every terminal and special
sequence is one symbol.

**Projects** (`Project*`). The evaluation is a class whose methods append to lists in loops; its meaning is stated
without those steps, as soundness of a project and as the reasons for each diagnostic. A file is read through
localization, the canonical text and its brackets to one error or a list of blocks.

**Localization** (`SourceMask`, `SourceStrings`, `Localized*`, `Localization*`, `LocaleProfile`). A source is cut into
runs of word characters and single other characters; respelling replaces the candidate runs. The string mask is an
array written in place, as in the tool. Strings, directives, words and answers each have an account of their own
beside the steps.

**Rollback** (`FileTree`, `Rollback`), **run delivery** (`RunDelivery`, `RunSession`), **the flattened tree**
(`LegacyTree`, `LegacyPreorder`), **versions** (`Version`, `Decimal`), **DER** (`Der`, `Bytes`), **base64url**
(`B64`), **frames** (`Frames`) and **the pairing text** (`Payload`, `PayloadAnswers`, `TextParts`). `Base` and `Order`
hold shared types and orders.

## What turned out not to hold

- `canonicalize` skips the first line of every localized source, while `evaluate_source` skips it only under a
  directive. The words of a first line without one are evaluated and then left over, so each later word is put in the
  place of one that many candidates further on. `LocalizationFirstLine.RebuiltExactly` says exactly when the text
  comes back all the same, and `MovedWordIsLost` gives a text that does not.
- A finished run that the routes drop between two polls ends on the device before all of it was sent
  (`RunDelivery.DroppedRunEndsEarly`); `GoneEnd` says exactly when.
- `Rollback::take` treats a target it cannot look at as absent, so `restore` removes it
  (`Rollback.UnreadableFileIsLost`). It comes back exactly when it lies under a target before it that was copied;
  `Rollback.Restore` is stated with that condition, `NothingLost`.
- `Payload::to_text` does not escape the PC's id, so the round trip holds exactly for ids that need no escape
  (`Payload.RoundTrip`). Percent decoding takes `%+5` for a byte, and the numbers of a payload may have a plus sign.
- A denial can be forgotten when the clock, having passed the expiry of the code, goes back before it
  (`PairingDenial.DenialIsForgotten`); `RefusedExactly` says exactly when the denied certificate gets past.
- A code issued at the very last second of the clock is pruned by the call that issues it; `PairingAnswers.CodeLives`
  has the exact condition.
- `truncated` may be true although nothing was left out: a malformed child reached when the answer is full sets it.
  `LegacyTree.TruncatedIsExact` therefore asks for well-formed listings in that direction.
- `read` refuses multi-byte tags and values of 2^32 bytes or more, which `tlv` would write (`Der.ReadUndoesTlv`).

## Model

| member | source | states |
|---|---|---|
| `Devices.CleanNameIsClean` | remote/src/devices.rs:260-269 | Every stored device name is printable, trimmed, at most 64 characters and not empty. |
| `Devices.CleanNameIdempotent` | remote/src/devices.rs:260-269 | Cleaning a name again on its way into the registry changes nothing. |
| `DeviceNames.CleanNameIs` | remote/src/devices.rs:260-269 | The name stored is the name given without control characters, cut to 64 characters and without white space at its ends, or the default where nothing of it is left. |
| `Devices.Registry.Enroll` | remote/src/devices.rs:160-198 | What one enrolment writes and answers: the live record already there for this id and key, or a refusal when the id is taken, or a new record after revoking the older live record of the key; with an unreadable file or a failed write, durable or not. |
| `Devices.Registry.Authorize` | remote/src/devices.rs:201-219 | The reverse scan answers with the newest live record of a key; failing that, revoked if the key ever had a record and unknown if not. A registry that cannot be read accepts no key. |
| `Devices.Authorized` | remote/src/devices.rs:201-219 | An accepted key has a live record and it is the answer; a refused key has none, and is told apart as revoked or unknown. |
| `Devices.AuthorizedIsNewest` | remote/src/devices.rs:201-219 | The record a key is accepted with is exactly its newest live one. |
| `PairingDecisions.EnrolledIs` | remote/src/devices.rs:160-198 | A live record of the key under the id is kept as it is; otherwise an id that any record has is refused, and a new one gets a record with the cleaned name, both times now, and the protocol, and revokes every live record of the key. |
| `Devices.Registry.Touch` | remote/src/devices.rs:222-229 | Seeing a device changes the last-seen time of the first record of its id and nothing else: the same records in the same order, the same ids, keys, names and revocations; without such a record, or when the file cannot be read, nothing changes. |
| `Devices.Registry.Revoke` | remote/src/devices.rs:232-243 | Revoking removes nothing and revives nothing: only the first record of the id changes, it is revoked afterwards, and one revoked before keeps its time. It is refused exactly when no record has the id, and then, or after a write that did not take effect, all is as it was. |
| `Devices.RevokedIsExact` | remote/src/devices.rs:232-243 | Revoking answers with a record of the id that is in the new list and revoked, and is refused exactly when no record has the id. |
| `Devices.Registry.Rename` | remote/src/devices.rs:246-256 | Renaming changes only the name of the first record of the id, to a clean one; it is refused exactly when no record has the id, and then nothing changes. |
| `Devices.RenamedIsExact` | remote/src/devices.rs:246-256 | Renaming answers with a record of the id that is in the new list and has a clean name. |
| `Pairing.Prune` | remote/src/pairing/state.rs:23-31 | Keeps exactly the challenges less than a day past expiry, and the candidates whose challenge is kept and which are unexpired, finalized or have a reserved id. |
| `Pairing.Pairing.Create` | remote/src/pairing.rs:253-270 | A new challenge, pruned and stored; on a failed write the file is the old one or the new one. |
| `Pairing.Pairing.Present` | remote/src/pairing.rs:281-395 | File, registry and answer after one call, over every branch and every end of its three writes. |
| `Pairing.Pairing.EnlistCandidate` | remote/src/pairing.rs:399-444 | A new certificate is recorded only for an open, unapproved, unexpired challenge within the three limits. |
| `Pairing.Pairing.SpendCode` | remote/src/pairing.rs:374-391 | The last step of finalization finalizes the one candidate, spends the code, supersedes the other open requests of it, prunes and stores. |
| `Pairing.Pairing.Approve` | remote/src/pairing.rs:462-513 | One pending, unexpired request of an undecided challenge is approved and the other pending ones superseded; every other case is refused with its reason and changes nothing. |
| `Pairing.Pairing.Deny` | remote/src/pairing.rs:519-549 | A pending request, or an approved one without a reserved id, is denied; every other case is refused with its reason and changes nothing. |
| `PairingAnswers.StandsSomewhere` | remote/src/pairing.rs:281-333 | A key that presents a code stands in exactly one place: no such code, a code it has not asked at, or its one request there. |
| `PairingAnswers.AnsweredExactly` | remote/src/pairing.rs:281-395 | After any run, by where the key stands: unknown exactly without such a code, waiting exactly for its pending request in time or a new one recorded under an open code with room and a write that succeeds, busy exactly without room, denied exactly for a denied request; one answer in every case. |
| `PairingAnswers.RefusedOrPaired` | remote/src/pairing.rs:281-395 | After any run: used exactly for a superseded request, a new key at a decided code, or a finalized one whose record is revoked; expired exactly past the end of the code; paired exactly when finalizing begins or was done, every write succeeds and the record is not revoked; and unavailable exactly in the cases left. |
| `PairingAnswers.CodeLives` | remote/src/pairing.rs:253-270 | After any run, a code issued at one time for so many seconds can be asked at by a new certificate exactly until their sum, saturating, unless it was issued at the very last second of the clock. |
| `PairingAnswers.RequestLives` | remote/src/pairing.rs:253-349 | The request recorded then waits, and can be approved, exactly until that time. |
| `PairingDecisions.ApprovedIs` | remote/src/pairing.rs:462-513 | What approving a request is answered for each status and time, and the file it makes entry by entry: this request approved now, the pending ones of its code superseded now, its code spoken for, and nothing else changed. |
| `PairingDecisions.DeniedIs` | remote/src/pairing.rs:519-549 | What denying a request is answered for each status and time: an approved one can be denied until its id is reserved; only that request changes. |
| `PairingDecisions.DecidedExactly` | remote/src/pairing.rs:462-549 | After any run, a decision is refused as on no request exactly when there is none, and approval and denial succeed exactly for the requests and times they should. |
| `PairingDecisions.SpentIs` | remote/src/pairing.rs:374-391 | Spending a code, entry by entry before pruning: the request finalized now, the open ones of its code superseded now, the code used now by that key. |
| `PairingDecisions.PrunedIs` | remote/src/pairing/state.rs:23-31 | Pruning keeps a code exactly until a day after it expires, as far as the clock goes, and a request exactly while its code is kept and it is unexpired, finalized or has a reserved id. |
| `PairingInvariant.StepKeeps` | remote/src/pairing.rs:253-549 | Every step of the protocol keeps the invariant: distinct ids and codes, one candidate for each challenge and key, candidate and challenge fit each other by status, the registry matches its history, the limits hold, and a call under way stands on an approved candidate. The steps are create, present up to each of its writes, approve, deny, registry changes in between, crashes, and writes that fail with or without effect. |
| `PairingInvariant.RunKeeps` | remote/src/pairing.rs:253-549 | The invariant holds after every run. |
| `PairingInvariant.StartHolds` | remote/src/pairing/state.rs:37-42 | The empty files of a first start meet the invariant. |
| `PairingTheorems.OneRecordPerChallenge` | remote/src/pairing.rs:343-393 | After any run each challenge has put at most one record in the registry, under the key of the one request approved for it, and the challenge names that request. |
| `PairingTheorems.TrustNeedsApproval` | remote/src/pairing.rs:272-279 | Every record in the registry goes back to a step of the run in which a person approved exactly its request. |
| `PairingTheorems.DecisionsLast` | remote/src/devices.rs:160-198 | However a run goes on, no record is removed or given another key, no revoked record is live again, and a challenge's approval never changes. |
| `PairingTheorems.CallIsRun` | remote/src/pairing.rs:281-395 | One undisturbed call of `present` is a run of the protocol with the same files at its end. |
| `PairingReservation.StepKeepsReserved` | remote/src/pairing/state.rs:23-31 | No step of the protocol, pruning included, takes a request with a reserved id out of the file while its challenge is there; it keeps its request, key and id, and stays approved or becomes finalized. |
| `PairingReservation.ReservationLasts` | remote/src/pairing/state.rs:23-31 | Nor does any run: from the moment an id is reserved until its challenge is pruned, the request stands under that id, approved or finalized. |
| `PairingTheorems.ReservedPairingFinishes` | remote/src/pairing.rs:356-392 | Crash safety over two runs: once an id was reserved for a request, then after whatever happens, and however late, as long as the challenge is still in the file, presenting the code with the same certificate ends paired under that id, as the one live record of the key, if and only if no revoked record stands under the id. |
| `PairingTheorems.ApprovedPairs` | remote/src/pairing.rs:343-393 | An approved request that presents in time is paired at once under the fresh id, and its record is the only live one of its key. |
| `PairingTheorems.GuardsNeverFire` | remote/src/pairing.rs:334-353 | The guards that compare challenge and candidate never refuse in a reachable state: a pending request waits until expiry, and an approved one finishes until expiry, or for good once its id is reserved. |
| `PairingTheorems.WaitingCanBeApproved` | remote/src/pairing.rs:462-513 | After any run, a waiting request can be approved exactly until its code expires. |
| `PairingTheorems.RevokedIsRefused` | remote/src/devices.rs:201-243 | After any run, revoking a record shuts its key out exactly when no other live record has the key. |
| `PairingTheorems.WaitingIsBounded` | remote/src/pairing.rs:414-426 | After any run, whatever the clock does, at most 8 requests wait for a code, at most 32 in all, and at most 32 are recorded for a code. |
| `PairingDenial.DenialIsFinal` | remote/src/pairing.rs:319-319 | A denied certificate is refused every time it presents that code, whatever happens in between and even after pruning, as long as the clock, once it has passed the expiry of the code, never goes back before it. |
| `PairingDenial.RefusedExactly` | remote/src/pairing/state.rs:23-31 | After pruning at one time, a denied certificate that asks at another gets past every refusal but the limit on waiting requests exactly when the pruning came between expiry and a day later, the request comes before expiry, and the code is neither approved nor used. |
| `PairingDenial.DenialIsForgotten` | remote/src/pairing/state.rs:23-31 | It does happen: a run in which a code is issued, asked for and denied, pruned after expiry by the issue of another code, and then asked for again at an earlier time and recorded. |
| `EbnfMeaning.HoldsIsYields` | canonical/LCL_Core_0.3.0/09_CONFORMANCE/TOOLS/validate_ebnf.py:170-189 | Both membership tests mean what they say: a definition is nullable (productive) over a set of names exactly when something it yields consists of those names (and terminals). |
| `EbnfMeaning.FixpointIsMeaning` | canonical/LCL_Core_0.3.0/09_CONFORMANCE/TOOLS/validate_ebnf.py:240-252 | A set closed under a test whose members all derive the right thing holds exactly the names that do. |
| `EbnfMeaning.Fixpoints` | canonical/LCL_Core_0.3.0/09_CONFORMANCE/TOOLS/validate_ebnf.py:244-256 | The in-place iteration ends, for any order of the productions, with exactly the nonterminals that derive the empty sequence and exactly those that derive some terminal sequence. |
| `EbnfLeftRecursion.Reachable` | canonical/LCL_Core_0.3.0/09_CONFORMANCE/TOOLS/validate_ebnf.py:239-247 | The reachable names are exactly those a chain of references leads to from the start. |
| `EbnfLeftRecursion.LeadingIsLeads` | canonical/LCL_Core_0.3.0/09_CONFORMANCE/TOOLS/validate_ebnf.py:192-209 | A name is a leading reference exactly when the definition yields a form in which only nullable names stand before it. |
| `EbnfCycles.Search.Visit` | canonical/LCL_Core_0.3.0/09_CONFORMANCE/TOOLS/validate_ebnf.py:215-223 | One visit adds exactly the cycles that a walk from the node can close. |
| `EbnfCycles.FindCycles` | canonical/LCL_Core_0.3.0/09_CONFORMANCE/TOOLS/validate_ebnf.py:212-227 | The search ends, reports only simple cycles, and reports each simple cycle exactly once, as its least rotation. |
| `EbnfCycles.CyclesAreReturns` | canonical/LCL_Core_0.3.0/09_CONFORMANCE/TOOLS/validate_ebnf.py:212-227 | A graph has a simple cycle exactly when some node can be left and reached again. |
| `EbnfLeftRecursion.CyclesAreLeftRecursion` | canonical/LCL_Core_0.3.0/09_CONFORMANCE/TOOLS/validate_ebnf.py:263-267 | The left-corner graph has a cycle exactly when some nonterminal derives, in at least one step, a form that begins with itself. |
| `EbnfLeftRecursion.Validate` | canonical/LCL_Core_0.3.0/09_CONFORMANCE/TOOLS/validate_ebnf.py:230-290 | Each diagnostic is exact: undefined, unreachable and unproductive names are those that are, and there are left-recursive cycles exactly when the grammar is left recursive. |
| `EbnfTokens.Tokenize` | canonical/LCL_Core_0.3.0/09_CONFORMANCE/TOOLS/validate_ebnf.py:37-83 | The scan of a grammar text gives exactly its tokens, or the error at the first place that starts none. |
| `EbnfTokens.TokensAreWritable` | canonical/LCL_Core_0.3.0/09_CONFORMANCE/TOOLS/validate_ebnf.py:37-83 | The tokens of any text can be written out again, and end with the only end marker. |
| `EbnfTokens.WrittenIsRead` | canonical/LCL_Core_0.3.0/09_CONFORMANCE/TOOLS/validate_ebnf.py:37-83 | Tokens written out with any spaces and comments that keep them apart are read back. |
| `EbnfLexemes.FrontIsExact` | canonical/LCL_Core_0.3.0/09_CONFORMANCE/TOOLS/validate_ebnf.py:41-81 | At each place of a text: blanks and comments up to their first end are passed over, a name goes as far as it can, a terminal and a special sequence end at their first mark, the latter trimmed; and each error is given exactly for what stands there. |
| `EbnfAnalysis.Analyze` | canonical/LCL_Core_0.3.0/09_CONFORMANCE/TOOLS/validate_ebnf.py:230-290 | From text to verdict: a grammar passes exactly when its text falls into tokens, it parses, names the start production, every reference is defined, every name is reachable and productive, and none is left recursive. |
| `EbnfAnalysis.LayoutDoesNotMatter` | canonical/LCL_Core_0.3.0/09_CONFORMANCE/TOOLS/validate_ebnf.py:37-290 | Any text that writes out a grammar in normal form, however it is laid out, gets the verdict of that grammar. |
| `EbnfParser.Parser.ParseTerm` | canonical/LCL_Core_0.3.0/09_CONFORMANCE/TOOLS/validate_ebnf.py:136-158 | The recursive-descent parser reads exactly the term the grammar of tokens has at its position, or stops at the same token with the same error. |
| `EbnfParser.Parser.ParseSequence` | canonical/LCL_Core_0.3.0/09_CONFORMANCE/TOOLS/validate_ebnf.py:127-134 | Terms separated by commas; one alone is itself. |
| `EbnfParser.Parser.ParseAlternatives` | canonical/LCL_Core_0.3.0/09_CONFORMANCE/TOOLS/validate_ebnf.py:118-125 | Sequences separated by bars; one alone is itself. |
| `EbnfParser.Parser.Parse` | canonical/LCL_Core_0.3.0/09_CONFORMANCE/TOOLS/validate_ebnf.py:104-116 | Productions up to the end marker; duplicates and an empty grammar are refused. |
| `EbnfParser.ParseRenders` | canonical/LCL_Core_0.3.0/09_CONFORMANCE/TOOLS/validate_ebnf.py:104-158 | Every successful parse is in normal form, with distinct names, and renders back to its own tokens. |
| `EbnfParser.RenderParses` | canonical/LCL_Core_0.3.0/09_CONFORMANCE/TOOLS/validate_ebnf.py:104-158 | Parsing the rendering of any grammar in normal form yields that grammar. |
| `EbnfErrors.DefinitionFails` | canonical/LCL_Core_0.3.0/09_CONFORMANCE/TOOLS/validate_ebnf.py:118-158 | A definition is read up to a token that ends a term and is followed by no comma or bar; or it stops with an error exactly where a term must start and none does, or where the contents of a bracket end and its mate does not follow. |
| `EbnfErrors.ProductionFails` | canonical/LCL_Core_0.3.0/09_CONFORMANCE/TOOLS/validate_ebnf.py:104-112 | A production stops at a missing name, equals sign or semicolon, or where its definition does. |
| `EbnfErrors.GrammarFails` | canonical/LCL_Core_0.3.0/09_CONFORMANCE/TOOLS/validate_ebnf.py:104-116 | Reading stops at the first production that cannot be read or is defined again, or because there is none. |
| `EbnfErrors.NamesAre` | canonical/LCL_Core_0.3.0/09_CONFORMANCE/TOOLS/validate_ebnf.py:161-167 | A definition refers to exactly the names among its tokens. |
| `ProjectReading.ReadFile` | canonical/LCL_Core_0.3.0/09_CONFORMANCE/TOOLS/validate_projects.py:170-226 | From the bytes of a file, decoded or not, through localization, the canonical text and its strings and brackets, to one error with its stage and place or to what is read of the lines. |
| `ProjectReading.ReadingIsStaged` | canonical/LCL_Core_0.3.0/09_CONFORMANCE/TOOLS/validate_projects.py:170-226 | Every error of these stages has a registered stage. |
| `ProjectReading.LexedExactly` | canonical/LCL_Core_0.3.0/09_CONFORMANCE/TOOLS/validate_projects.py:206-226 | A text is read exactly when every string in it ends and its brackets are balanced; otherwise an open string is reported at the end of the file, then the first bracket that breaks what was read, then the outermost open one, each at its place in the file. |
| `ProjectReading.RespelledReads` | canonical/LCL_Core_0.3.0/09_CONFORMANCE/TOOLS/validate_projects.py:170-226 | A file respelled under an explicit directive is read exactly as the original text under it would be, whatever reads the lines, with each character at its place in the respelled file. |
| `ProjectUnits.Read` | canonical/LCL_Core_0.3.0/09_CONFORMANCE/TOOLS/validate_projects.py:245-278 | One unit is usable exactly when its file can be read and its blocks are as the contract asks; the checker stops on exactly the headers whose versions are not string literals. |
| `ProjectUnits.CheckBlocks` | canonical/LCL_Core_0.3.0/09_CONFORMANCE/TOOLS/validate_projects.py:260-277 | The block checks append exactly the diagnostics of misplaced blocks, of a missing EXECUTE and of malformed parts, in that order. |
| `ProjectUnitReports.UnitIsReported` | canonical/LCL_Core_0.3.0/09_CONFORMANCE/TOOLS/validate_projects.py:245-278 | A diagnostic is one of a unit exactly when it is an error of reading it, or its header is not in order, its kind is not registered, a block is not legal for the kind, an executed kind has not one EXECUTE, or the first thing wrong with a PART is that. |
| `ProjectUnitReports.UnitSays` | canonical/LCL_Core_0.3.0/09_CONFORMANCE/TOOLS/validate_projects.py:245-259 | What a unit says of itself: its blocks and references, the texts of its two versions, its kind, and their places. |
| `ProjectUnitReports.ReportIsOrdered` | canonical/LCL_Core_0.3.0/09_CONFORMANCE/TOOLS/validate_projects.py:417-422 | In a report the earlier diagnostic is of an earlier stage, or then of a source last loaded earlier, or then at an earlier place, or then of a smaller name. |
| `ProjectLexical.CheckDelimiters` | canonical/LCL_Core_0.3.0/09_CONFORMANCE/TOOLS/validate_projects.py:206-226 | The stack loop gives the verdict of the scan of the brackets outside strings. |
| `ProjectLexical.VerdictIsExact` | canonical/LCL_Core_0.3.0/09_CONFORMANCE/TOOLS/validate_projects.py:206-226 | A source passes exactly when no string is open and its brackets are balanced; a mismatch is reported exactly when no continuation could balance them, at the first bracket after which none could; an unclosed bracket is the one after the longest balanced beginning. |
| `ProjectLexical.BracketsAre` | canonical/LCL_Core_0.3.0/09_CONFORMANCE/TOOLS/validate_projects.py:210-215 | The brackets looked at are exactly the four characters outside the strings, told apart as opening or closing and round or square. |
| `ProjectRun.Evaluation.AddPart` | canonical/LCL_Core_0.3.0/09_CONFORMANCE/TOOLS/validate_projects.py:314-352 | One PART block is taken up: duplicate, missing, optional, invalid, misfit or loaded. |
| `ProjectRun.Evaluation.Follow` | canonical/LCL_Core_0.3.0/09_CONFORMANCE/TOOLS/validate_projects.py:356-377 | Following imports ends on any import graph, and emits what the step-by-step specification says. |
| `ProjectRun.Evaluation.Declare` | canonical/LCL_Core_0.3.0/09_CONFORMANCE/TOOLS/validate_projects.py:382-390 | Identifiers are declared in order; a repeated one or one in an imported namespace is a duplicate. |
| `ProjectRun.Evaluation.Evaluate` | canonical/LCL_Core_0.3.0/09_CONFORMANCE/TOOLS/validate_projects.py:282-415 | The whole evaluation answers as the project's meaning demands. |
| `ProjectReports.PartIsReported` | canonical/LCL_Core_0.3.0/09_CONFORMANCE/TOOLS/validate_projects.py:314-352 | What one PART block adds to the report, exactly: named again, missing though required, the errors of its unit, or the first misfit of a usable one, which is another LCL version than 0.3.0, a project kind, another kind than named, or another specification version, each at its place; with its row, and whether the project stays complete. |
| `ProjectReports.BlocksAreReported` | canonical/LCL_Core_0.3.0/09_CONFORMANCE/TOOLS/validate_projects.py:356-377 | What following imports adds to the report, exactly: for each chain of imports through libraries, the one it ends with comes back to the chain, is a part, is not there, is not usable, or is no library. |
| `ProjectAnswers.ReportIsExact` | canonical/LCL_Core_0.3.0/09_CONFORMANCE/TOOLS/validate_projects.py:282-425 | A diagnostic is in the report of a project exactly when there is a reason for it, over entry, parts, imports, identifiers, references and cycles of bases. |
| `ProjectAnswers.RowsAreExact` | canonical/LCL_Core_0.3.0/09_CONFORMANCE/TOOLS/validate_projects.py:313-352 | The report of a usable project has one row for each source a PART names, in the order of their first naming, with its outcome. |
| `ProjectAnswers.DeclareIsReported` | canonical/LCL_Core_0.3.0/09_CONFORMANCE/TOOLS/validate_projects.py:382-390 | Declaring reports exactly the identifiers declared before or in an imported namespace, and knows exactly the others. |
| `ProjectAnswers.InNamespacesIs` | canonical/LCL_Core_0.3.0/09_CONFORMANCE/TOOLS/validate_projects.py:387-393 | An identifier counts as in a namespace exactly when it is the namespace or starts with it and a point. |
| `ProjectAnswers.BasesOfAre` | canonical/LCL_Core_0.3.0/09_CONFORMANCE/TOOLS/validate_projects.py:397-403 | The graph of bases gives each definition the base its last block names, with that block's place. |
| `ProjectImports.FollowIsExact` | canonical/LCL_Core_0.3.0/09_CONFORMANCE/TOOLS/validate_projects.py:356-379 | Following the imports of a usable entry emits nothing exactly when every chain of imports from it is free of repetition and meets only usable libraries that are not parts of the project. |
| `ProjectAcceptance.AddPartsExact` | canonical/LCL_Core_0.3.0/09_CONFORMANCE/TOOLS/validate_projects.py:313-352 | Taking up the parts emits nothing exactly when each part that is there is usable and fits, each missing one is optional, and none is named twice. |
| `ProjectAcceptance.AcrossExact` | canonical/LCL_Core_0.3.0/09_CONFORMANCE/TOOLS/validate_projects.py:381-403 | The checks across units emit nothing exactly when identifiers are unique and outside imported namespaces and every reference resolves. |
| `ProjectAcceptance.AcceptsExactly` | canonical/LCL_Core_0.3.0/09_CONFORMANCE/TOOLS/validate_projects.py:282-425 | A project is accepted exactly when it is sound: entry, parts, imports, identifiers, references and bases, each stated without the steps of the evaluation. |
| `ProjectAcceptance.AnswerIsUnique` | canonical/LCL_Core_0.3.0/09_CONFORMANCE/TOOLS/validate_projects.py:282-425 | There is one answer, diagnostics and their order included, for each project. |
| `ProjectAcceptance.AnswerIsLocal` | canonical/LCL_Core_0.3.0/09_CONFORMANCE/TOOLS/validate_projects.py:282-379 | Two sets of files that agree on the entry and on everything its files name get the same answer, whatever else differs. |
| `ProjectLocality.OnlyNamedFilesMatter` | canonical/LCL_Core_0.3.0/09_CONFORMANCE/TOOLS/validate_projects.py:282-379 | What is gathered depends only on the entry and on files that a PART, IMPORT or EXTENSION names. |
| `ProjectPlacement.GatherPlaced` | canonical/LCL_Core_0.3.0/09_CONFORMANCE/TOOLS/validate_projects.py:417-422 | Every diagnostic of an evaluation names a loaded source and a registered stage, so the sort key of the report is always defined. |
| `ProjectDiagnostics.LeqIsTotal` | canonical/LCL_Core_0.3.0/09_CONFORMANCE/TOOLS/validate_projects.py:419-422 | The sort key tells any two different diagnostics apart. |
| `ProjectDiagnostics.ListingIsUnique` | canonical/LCL_Core_0.3.0/09_CONFORMANCE/TOOLS/validate_projects.py:419-422 | Only one strictly sorted listing has the elements it has. |
| `ProjectDiagnostics.EmissionOrderIsIrrelevant` | canonical/LCL_Core_0.3.0/09_CONFORMANCE/TOOLS/validate_projects.py:419-422 | What is reported does not depend on the order in which diagnostics were emitted, nor on how often. |
| `ProjectDiagnostics.Finish` | canonical/LCL_Core_0.3.0/09_CONFORMANCE/TOOLS/validate_projects.py:417-425 | The report is the sorted set of the emitted diagnostics; the outcome is accept exactly when there are none. |
| `ProjectBases.Follow` | canonical/LCL_Core_0.3.0/09_CONFORMANCE/TOOLS/validate_projects.py:406-409 | The walk along bases ends, on a name outside the graph or one already seen. |
| `ProjectBases.ChainOfRing` | canonical/LCL_Core_0.3.0/09_CONFORMANCE/TOOLS/validate_projects.py:405-411 | A walk that starts on a cycle runs through exactly that cycle. |
| `ProjectBases.CycleReports` | canonical/LCL_Core_0.3.0/09_CONFORMANCE/TOOLS/validate_projects.py:404-414 | Exactly one report for each cycle of the BASE graph, at its member of least unit rank and offset, and none for chains that leave the graph or only lead into a cycle. |
| `SourceMask.OutsideStringMask` | canonical/LCL_Core_0.3.0/09_CONFORMANCE/TOOLS/validate_source_fixtures.py:31-69 | The mask marks exactly the characters outside strings, by an independent account of strings, multi-line strings and escapes; and the flag tells whether one is left open. |
| `SourceStrings.MaskIsExact` | canonical/LCL_Core_0.3.0/09_CONFORMANCE/TOOLS/validate_source_fixtures.py:31-69 | The characters left in are exactly those outside the strings when strings are taken off from the start, each from its quotes, three if it can, to the first such quotes that no backslash takes away. |
| `SourceStrings.UnclosedIsExact` | canonical/LCL_Core_0.3.0/09_CONFORMANCE/TOOLS/validate_source_fixtures.py:31-69 | No string is left open exactly when every quote outside a string starts one that ends. |
| `LocalizedWords.FindWords` | canonical/LCL_Core_0.3.0/09_CONFORMANCE/TOOLS/validate_localization.py:390-406 | The loop finds exactly the candidate words of the source's pieces, each with its place, from wherever it starts, also inside a string left open before. |
| `LocalizationAnswers.FoundAreWords` | canonical/LCL_Core_0.3.0/09_CONFORMANCE/TOOLS/validate_localization.py:390-406 | The words found are, in order, exactly the longest runs of word characters outside the strings that start with a capital or beyond ASCII and have no small ASCII letter. |
| `LocalizedWords.RespelledPieces` | canonical/LCL_Core_0.3.0/09_CONFORMANCE/TOOLS/validate_localization.py:390-406 | Replacing candidate words by spellings leaves every other piece, every word boundary and every string where it was. |
| `LocalizedSource.ByteOffsets` | canonical/LCL_Core_0.3.0/09_CONFORMANCE/TOOLS/validate_localization.py:361-367 | The offset of every character in the encoded text, and of its end. |
| `LocalizationAnswers.LengthIsLeast` | canonical/LCL_Core_0.3.0/09_CONFORMANCE/TOOLS/validate_localization.py:361-367 | A character counts for as few bytes as can hold it in UTF-8 (section 3 of RFC 3629). |
| `LocalizedSource.MapWords` | canonical/LCL_Core_0.3.0/09_CONFORMANCE/TOOLS/validate_localization.py:457-480 | Every candidate is mapped, or the error to report is the first: localization errors before unknown words, by offset. |
| `Localization.FindDirective` | canonical/LCL_Core_0.3.0/09_CONFORMANCE/TOOLS/validate_localization.py:370-387 | The directive of the first line, and every problem with it or with a later line that starts like one, in order. |
| `Localization.LaterTroubleShows` | canonical/LCL_Core_0.3.0/09_CONFORMANCE/TOOLS/validate_localization.py:374-387 | There is trouble past the first line exactly when some later line starts like a directive. |
| `LocalizationAnswers.TroubleIs` | canonical/LCL_Core_0.3.0/09_CONFORMANCE/TOOLS/validate_localization.py:370-387 | What is wrong with the directives, exactly: a first line that starts like one and is not the word, one space and a tag; a tag that is not well-formed, at byte 8; and every later line that starts like one, at its start. |
| `Localization.Detect` | canonical/LCL_Core_0.3.0/09_CONFORMANCE/TOOLS/validate_localization.py:444-456 | Without directive or pin: nothing to do when every candidate is reserved, the one profile that spells a foreign word if it is the only one, and otherwise the error at the first foreign word. |
| `LocalizationRun.EvaluateSource` | canonical/LCL_Core_0.3.0/09_CONFORMANCE/TOOLS/validate_localization.py:409-481 | The whole stage, from a file to record or first error, against an account of it by directive, locale and words; a file that is not UTF-8 is refused at its first offending byte. |
| `LocalizationAnswers.DirectivesAre` | canonical/LCL_Core_0.3.0/09_CONFORMANCE/TOOLS/validate_localization.py:370-387 | Either something is wrong with the directives, or there are none, or the first line is the only one. |
| `LocalizationAnswers.TroubleIsAnswered` | canonical/LCL_Core_0.3.0/09_CONFORMANCE/TOOLS/validate_localization.py:420-423 | Anything wrong with the directives is answered with what stands first. |
| `LocalizationAnswers.DirectedIsExact` | canonical/LCL_Core_0.3.0/09_CONFORMANCE/TOOLS/validate_localization.py:429-438 | Under a directive: drift if the pin names another locale, unavailable without the profile, drift if it is not the one pinned, and otherwise the words by that profile; no answer exactly when nothing follows the directive. |
| `LocalizationAnswers.PinnedIsExact` | canonical/LCL_Core_0.3.0/09_CONFORMANCE/TOOLS/validate_localization.py:439-444 | A pinned source without directives is localized exactly when the profile is there, has the pinned identity and spells every word; it is answered unavailable exactly when the profile is not there, and drift exactly when it has another identity. |
| `LocalizationAnswers.DetectedIsExact` | canonical/LCL_Core_0.3.0/09_CONFORMANCE/TOOLS/validate_localization.py:445-456 | Without directive and pin: canonical exactly when every word is reserved, and otherwise, at the first that is not, unavailable, ambiguous when two profiles fit, failed when none does, and the words by the one that does. |
| `LocalizationRun.Canonicalize` | canonical/LCL_Core_0.3.0/09_CONFORMANCE/TOOLS/validate_projects.py:186-204 | The canonical text and its offset map, put together piece by piece; the first line is always left as it is. |
| `LocalizedSource.Restores` | canonical/LCL_Core_0.3.0/09_CONFORMANCE/TOOLS/validate_projects.py:190-204 | Replacing what was found in a respelled source by the words it stands for gives the original source. |
| `LocalizedSource.SpliceOffsets` | canonical/LCL_Core_0.3.0/09_CONFORMANCE/TOOLS/validate_projects.py:194-204 | The offset map is one longer than the canonical text, never goes back, starts where the source does and ends at its end. |
| `LocalizationRoundTrip.RespelledEvaluates` | canonical/LCL_Core_0.3.0/09_CONFORMANCE/TOOLS/validate_localization.py:409-481 | Under an explicit directive, a text whose candidates are replaced by any spellings the profile has for them evaluates without error to exactly the words of the original, and to nothing else. |
| `LocalizationRoundTrip.RespelledRebuilds` | canonical/LCL_Core_0.3.0/09_CONFORMANCE/TOOLS/validate_projects.py:186-204 | The canonical text rebuilt from that is the original text, with a non-decreasing offset map one longer than it. |
| `LocaleProfile.ValidateSpellings` | canonical/LCL_Core_0.3.0/09_CONFORMANCE/TOOLS/validate_localization.py:311-336 | The table is accepted exactly when each entry is well formed and no two spellings, and no spelling and another canonical word, look alike. |
| `LocaleProfile.EntryIsSpelling` | canonical/LCL_Core_0.3.0/09_CONFORMANCE/TOOLS/validate_localization.py:317-327 | A spelling that passes is a word that the search for candidates finds. |
| `LocaleProfile.TablePromises` | canonical/LCL_Core_0.3.0/09_CONFORMANCE/TOOLS/validate_localization.py:311-336 | A valid table spells only words that may be localized, in at most 64 characters of one listed script; a reserved word can only spell itself; what looks like a canonical word spells that word; and no two spellings look alike. |
| `LocaleProfile.NeverAnIdentifier` | canonical/LCL_Core_0.3.0/09_CONFORMANCE/TOOLS/validate_localization.py:328-329 | The check of a spelling against the identifier forms never fires: its first letter already rules them out. |
| `LocaleProfile.RespellingExists` | canonical/LCL_Core_0.3.0/09_CONFORMANCE/TOOLS/validate_localization.py:311-344 | A valid profile that covers every reserved word can respell every text whose candidates are reserved. |
| `LocaleProfile.TableRespells` | canonical/LCL_Core_0.3.0/09_CONFORMANCE/TOOLS/validate_localization.py:311-336 | Every replacement of candidates by spellings of a valid table is a respelling, so the round trip holds for all of them. |
| `LocalizationFirstLine.ChosenAnswersOriginals` | canonical/LCL_Core_0.3.0/09_CONFORMANCE/TOOLS/validate_localization.py:429-481 | Without a directive, once a locale is pinned or detected, a respelled source evaluates to the words of the original, those of the first line included. |
| `LocalizationFirstLine.RebuiltExactly` | canonical/LCL_Core_0.3.0/09_CONFORMANCE/TOOLS/validate_projects.py:186-204 | Such a source is rebuilt exactly when each candidate on its first line is spelled as itself and every word stands again as many words later as there are candidates on the first line, because those are evaluated but skipped and every later word is put that much too late. |
| `LocalizationFirstLine.PlainFirstLine` | canonical/LCL_Core_0.3.0/09_CONFORMANCE/TOOLS/validate_projects.py:186-204 | So with no candidate on the first line the text always comes back. |
| `LocalizationFirstLine.MovedWordIsLost` | canonical/LCL_Core_0.3.0/09_CONFORMANCE/TOOLS/validate_projects.py:186-204 | A concrete lexicon, profile and text: the locale is detected, the words A and B are answered, and the text A, A is rebuilt instead of A, B. |
| `Rollback.FileSystem.CopyTree` | update/src/apply.rs:54-69 | A copy that succeeds has put at the destination exactly what is at the source, whatever it is, and changed nothing else. |
| `Rollback.FileSystem.RemoveTree` | update/src/apply.rs:71-86 | A removal that succeeds leaves the tree without the path, also when nothing was there. |
| `Rollback.Take` | update/src/apply.rs:96-111 | When it succeeds every target is as it was, and each entry's copy holds what was at its target. |
| `Rollback.Restore` | update/src/apply.rs:114-123 | If it returns true then, whatever happened in between, nested and repeated targets included, every target subtree equals its state when the copies were taken if and only if each target that was there and was not copied lies under one before it that was. |
| `Rollback.CopyMendsLost` | update/src/apply.rs:116-121 | Putting back a copied target turns the tree without all that was lost until then into the tree without what is lost after it: what lay below the target is mended, and nothing else changes. |
| `Rollback.RestoredExactly` | update/src/apply.rs:116-121 | With all steps done, every target is as before exactly when nothing was lost. |
| `Rollback.UnreadableFileIsLost` | update/src/apply.rs:96-123 | A concrete tree with one file that could not be looked at: the file is gone after the restore. |
| `Rollback.UnreadableInsideComesBack` | update/src/apply.rs:96-123 | A file that could not be looked at comes back all the same when a directory around it was copied before. |
| `RunDelivery.StepKeeps` | remote/src/session/runs.rs:175-205 | Every append, poll step, disconnect, reconnect, follow and delivery keeps what was received and what is under way a beginning of the log. |
| `RunDelivery.NoGapNoDuplicate` | remote/src/session/runs.rs:117-148 | After any interleaving the device has exactly the first events of the log, in order and each once; an end means the run is over, and then the device has all of it unless the run was dropped by the routes before. |
| `RunDelivery.GoneEnd` | remote/src/session/runs.rs:184-187 | The end sent for a run no longer kept is complete exactly when all of the log had been sent before. |
| `RunDelivery.DroppedRunEndsEarly` | impl/crates/lcl-workspace/src/execution.rs:536-555 | It does happen: a run that finished and was dropped between two polls ends on the device with an event missing. |
| `RunDelivery.FinishedRunIsDelivered` | remote/src/session/runs.rs:175-205 | Once a run has finished, on a connection that stays up, polling, sending and delivering in any order come to an end after a bounded number of steps, and when none of them is left the device has the whole log and its end. |
| `RunSession.Session.Follow` | remote/src/session/runs.rs:107-148 | A run is followed exactly when it is named, the routes keep it and this device started it in these routes; each other asker is refused with the reason and changes nothing. It is followed from the event asked for, unless it is followed already, so that no run is followed twice. |
| `RunSession.Session.ForwardRuns` | remote/src/session/runs.rs:175-238 | One look ends the runs in closed routes, sends the new events of every other run in order, blank ones as an empty object, and the end of those that are over, and lets exactly those go; when a write fails, what was sent is a beginning of that. |
| `RunSession.LooksSendTheLog` | remote/src/session/runs.rs:175-205 | Through any number of looks that succeed, whatever else is followed, the device is sent about a run in open routes exactly the events of its log from the one it asked for, each once and in order, and then its end if and only if some look finds it finished with nothing new; it is followed until then, from the first event not yet sent. |
| `RunSession.FinishedIsReported` | remote/src/session/runs.rs:175-205 | A run is reported ended only when it has finished, and at the latest at the look after all of it was sent. |
| `RunSession.PollIsDelivery` | remote/src/session/runs.rs:175-205 | What a look does to one run is a run of the steps of the delivery model: the same messages on the wire, and the same event to go on from, or none. |
| `RunSession.ClosedRunIsEnded` | remote/src/session/runs.rs:207-238 | A run in closed routes is told in one look that it failed, and why, and that it ended, and nothing else, and is followed no longer. |
| `RunSession.SentSaysSomething` | remote/src/session/runs.rs:188-194 | Whatever is sent has something in it: a blank payload is sent as an empty object, and any other as it is. |
| `RunSession.RemainingOnce` | remote/src/session/runs.rs:175-238 | A look follows no run twice and takes up none. |
| `RunSession.ClosedRunIsSilent` | remote/src/session/runs.rs:207-238 | Once routes were closed, all a device hears of a run in them is that it failed and ended, and it is followed no longer. |
| `LegacyTree.Flattening.Place` | remote/src/session/legacy_tree.rs:37-89 | The recursion with its shared budget gives what taking the unbounded walk item by item gives. |
| `LegacyTree.TruncatedIsExact` | remote/src/session/legacy_tree.rs:20-89 | The answer is exactly the first 4096 entries of the preorder that does not expand folders below depth 12; not truncated means complete; and with well-formed listings truncated is true exactly when something was left out. |
| `LegacyPreorder.AnswerIsPreorder` | remote/src/session/legacy_tree.rs:20-89 | The entries are those of the well-formed children down to the thirteenth level, a folder before what is in it and children in their order, and of these the first 4096. |
| `LegacyTree.AnswerHasParentsFirst` | remote/src/session/legacy_tree.rs:37-89 | Every entry is a child of the root or of a folder entry placed before it. |
| `Version.PrecedenceIsTotal` | update/src/version.rs:95-123 | Comparison is a total order that is equal only on identical versions (item 11 of Semantic Versioning 2.0.0). |
| `Version.PrecedenceIsExact` | update/src/version.rs:95-123 | Which way the order runs: by the first of major, minor and patch that differs; then a pre-release before its release; then by the first identifier that differs, numbers by value, a number before a text, texts by ASCII; then the shorter list first (item 11 of Semantic Versioning 2.0.0). |
| `Version.ParseIsExact` | update/src/version.rs:27-75 | Parsing and showing are inverse to each other between exactly the accepted texts and the versions whose numbers fit 64 bits. |
| `Version.WriteVersion` | update/src/version.rs:131-143 | Writing a version, number by number and then identifier by identifier, gives its text. |
| `Version.ParseShown` | update/src/version.rs:131-143 | Showing any version in range gives a text that parses to it. |
| `Der.ReadUndoesTlv` | remote/src/der.rs:118-147 | Reading undoes writing, with any bytes after it, exactly for single-byte tags and values shorter than 2^32 bytes; any other element is refused (sections 8.1.3 and 10.1 of ITU-T X.690). |
| `Der.LongLength` | remote/src/der.rs:131-134 | The loop over the bytes of a long length computes their number. |
| `Der.ReadChildren` | remote/src/der.rs:150-158 | The loop over a value reads every element in it or refuses. |
| `Der.ChildrenUndoJoin` | remote/src/der.rs:150-158 | Taking a value apart undoes joining any elements. |
| `Der.CertificateFields` | remote/src/der.rs:161-174 | What is found in a certificate of any fields: the sixth after the optional version if it is a SEQUENCE, and otherwise nothing. |
| `Der.SpkiIsFound` | remote/src/der.rs:161-174 | For any certificate with its fields in the order of section 4.1 of RFC 5280, the key found is exactly the one put in. |
| `Der.PointIsFound` | remote/src/der.rs:177-202 | In an element of any parts, the first of any elements itself, a point is found exactly when there is one part more, the first names a P-256 key, and the other holds that point in the uncompressed form. |
| `Der.UnsignedIsMinimal` | remote/src/der.rs:61-69 | An INTEGER keeps its number, is not negative and has no superfluous byte. |
| `Der.ReadExactly` | remote/src/der.rs:118-147 | What is read is exactly a tag of one byte, a length in one byte below 128 or in one to four bytes after their count, and so many bytes, with whatever follows left over. |
| `Der.SpkiExactly` | remote/src/der.rs:161-174 | A key is found exactly in bytes that are one SEQUENCE whose first part is a SEQUENCE with a SEQUENCE as its sixth field, or seventh after a version. |
| `Der.PointExactly` | remote/src/der.rs:177-202 | A point is found exactly in bytes that are one SEQUENCE of two parts, the first made of the two identifiers of P-256 keys, the other a BIT STRING of a zero and 65 bytes that start with 4. |
| `B64.EncodeText` | remote/src/b64.rs:6-22 | The loop over groups of three bytes writes the encoding. |
| `B64.GroupIsWritten` | remote/src/b64.rs:1-22 | Three bytes are written as the four symbols of their 24 bits, most significant first, in the alphabet of Table 2 of RFC 4648. |
| `B64.ShortIsWritten` | remote/src/b64.rs:6-22 | One or two bytes are written like three filled up with zeros, in one symbol more than there are bytes. |
| `B64.DecodeText` | remote/src/b64.rs:24-55 | The loop over groups of four symbols reads it, and refuses a dangling symbol, a foreign one and set bits that are not used. |
| `B64.DecodeIsExact` | remote/src/b64.rs:6-55 | Decoding accepts exactly the texts that encoding writes, and gives back the bytes (sections 3.5 and 5 of RFC 4648). |
| `Frames.Reader.Next` | remote/src/frame.rs:79-94 | A complete frame within the limit leaves the buffer, and with the rest makes up what was there; an incomplete or too long one changes nothing. |
| `Frames.NextIsExact` | remote/src/frame.rs:79-94 | What the front of a buffer is taken for, exactly: incomplete, too large by the announced length, a message, or bytes that are not UTF-8, and what is left. |
| `Frames.LastLimitHolds` | remote/src/frame.rs:62-72 | The limit in force is the last one set. |
| `Frames.SplitDoesNotMatter` | remote/src/frame.rs:62-94 | However a stream is split, whenever frames are asked for and whenever the limit is changed, as long as each frame is settled under its own limit, the frames and the first error are those of the whole stream. |
| `Frames.SomeLimitsAreObeyed` | remote/src/frame.rs:62-94 | Every run settles each frame under some limit: the one in force when the frame, or its error, is given. |
| `Frames.NothingLost` | remote/src/frame.rs:74-94 | Until an error, the encodings of the frames given, followed by the buffer, are everything that was fed. |
| `Frames.EncodedComesBack` | remote/src/frame.rs:40-45 | Messages within their limits come back exactly as written. |
| `Payload.UnescapedEncoded` | remote/src/pairing/payload.rs:123-152 | Percent decoding undoes percent encoding for every text (section 2.1 of RFC 3986). |
| `PayloadAnswers.EncodedIs` | remote/src/pairing/payload.rs:123-133 | Encoding leaves letters, digits and seven marks as they are, and writes every other byte as a percent sign and two capital hexadecimal digits. |
| `PayloadAnswers.UnescapedIs` | remote/src/pairing/payload.rs:135-152 | Decoding takes a percent sign and two hexadecimal digits of either case, or a plus sign and one, for the byte they stand for, and every other byte for itself. |
| `Payload.WriteText` | remote/src/pairing/payload.rs:30-46 | Writing a payload field by field, with each address after the one before it, gives its text. |
| `Payload.Parse` | remote/src/pairing/payload.rs:48-120 | The loop over the fields gives the first error or the filled slots, and then the checks in their order. |
| `PayloadAnswers.AcceptedExactly` | remote/src/pairing/payload.rs:48-120 | A text is accepted as a payload exactly when it is the prefix and fields that can be read, name no slot twice, and say it: version 2, a fingerprint of 64 small hexadecimal digits, a code of 32 bytes, an address, an id and an expiry; fields of other names do not count. |
| `PayloadAnswers.RefusedExactly` | remote/src/pairing/payload.rs:48-120 | Any other text is refused for the first of: the older link, no prefix, the first field that cannot be read or names a slot again, and what the fields lack, a version below 2 being the older flow. |
| `Payload.ReadIsValid` | remote/src/pairing/payload.rs:48-120 | Every accepted text says a valid payload. |
| `Payload.RoundTrip` | remote/src/pairing/payload.rs:30-120 | A payload is read back from its text exactly when it is valid and its id has nothing that percent coding would have had to escape. |
| `Payload.NothingToTrim` | remote/src/pairing/payload.rs:48-50 | Trimming leaves every written text as it is. |

## Left out

- TLS, sockets, HTTP, discovery, child processes and command lines: input and output.
- Locks as system calls: a lock is what makes the steps of the protocol atomic.
- SHA-256, signatures, constant-time comparison and the verification number shown on both screens; a failure of the
  random source is not told apart from an unreadable file.
- Reading and writing JSON; the pairing file and the registry start from well-formed contents. `Registry::add`,
  `candidates` and `status_at`: an enrolment under a fresh id, and two views.
- The byte offsets of a grammar's parse errors: they name a token's position. A grammar's report lists its cycles
  sorted; the model gives them as a set. Which characters are spaces, letters and digits is a parameter.
- Python's recursion limit, in the cycle search, the parser and the following of imports.
- The regular expressions that read the lines of a canonical text into blocks and references, and path resolution:
  parameters of `ProjectReading` and of `ProjectEvaluation.Context`.
- The `locales` of a project's result, which repeats what each unit says of itself, and the comparison with expected
  results.
- The parts of a locale profile besides its spellings: format, coverage count, provenance, preferred spellings,
  labels. The normal form of a language tag is a parameter, and so are the letters of each script and the look-alike
  table.
- Decoding UTF-8: a source of the localization stage is a text, or the place of the first byte that is none.
- Links among the ancestors of rollback targets, copying onto a link left behind in the copy area, ownership and times
  of files; `discard`, health checks, relaunch and service control.
- Starting a run, the record of who started it, answers to a run's pause, and the cancelling of runs whose project is
  no longer shared: `RunSession` starts from the record and from what the routes answer.
- Trimming a pairing text: a parameter of `Payload.Parse`, with `Payload.NothingToTrim` on what it must leave alone.
- `shown` and `is_prerelease` of versions; DER times, strings and booleans, which are `tlv` of given bytes.
- The checks of language contracts, of releases and of source fixtures apart from the mask; the 0.1.0 and 0.2.0 copies
  of the same tools.
- PairingDenial.DenialIsFinal: assumes that the clock does not go back over the expiry of the code, because pruning
  forgets a denial after expiry.
