# Verification of the CelesOS reflection checker, names, undo log, authority check and schedule

A Dafny model of the self-contained decision logic of the repository, with proofs of what it
decides. `dafny verify dfyconfig.toml` checks everything.

What is modelled, in the system's own terms:

- **The reflection checker** (`tools/validate_reflection.py`). It compares the fields of a C++ class
  with the fields its `FC_REFLECT` macro lists, up to fields named in `@ignore` and `@swap` comments.
  The matcher (`Matcher`, `MatcherSoundness`, `MatcherExactness`, `MatcherSwaps`, `MatcherCauses`) is a two-cursor loop
  over both field lists. The main result, `MatcherExactness.Exact`, is an if-and-only-if: on every
  input the collector can produce, the matcher accepts exactly when names are conserved, swaps are
  reflected, the remaining fields agree in order, and no listed swap is found in place.
  `MatcherCauses` says which assertion fails, and what fault of the lists it stands for. The collector
  (`Collector`, `Validation`) fills the lists; the scope reader (`Scopes`, `ScopeLaws`,
  `ScopeRoundTrip`) finds classes and their fields by nested braces; `FindClass` resolves names.
  `FileCheck.FileVerdict` joins them, from the scopes and lists as written to the verdict.
- **Account names** (`NameBits`, `Names`, `NameText`, `NameLaws`): `name_suffix` on the 64-bit value,
  and the text form of a name. The main results are that the suffix is the text after the last dot,
  that decoding and encoding are inverse on all 64-bit values, and which texts `name::set` accepts.
- **The undo log** (`UndoLog`): `permission_visitor`, an append-only list with size marks, refines a
  stack of full copies on every run.
- **The authority check** (`Authority`, `AuthorityLaws`, `AuthorityOrder`, `AuthorityLocal`,
  `AuthorityPlain`, `AuthorityCases`): whether keys, delays and granted permissions satisfy an authority, recursively
  and with a cache. It is sound for all authorities. It decides derivability when, among the
  permissions that matter to the authority, none depends on itself and the depth limit covers the
  longest chain. When no permission is counted twice it equals an evaluation without a cache, and the
  keys marked as used are enough on their own. `AuthorityCases` shows what fails otherwise.
- **The producer schedule** (`Schedule`) and **the Bancor connector** (`Bancor`).

## How the model is written

Loops and objects of the source are Dafny methods and classes; each is proved equal to a function of
its input or its old state, and the laws are lemmas about those functions. Pure code is modelled as
functions.

- The checker's regular expressions are abstracted to tokens: an opening brace with the header that
  ends at it, a closing brace, a field, other text. A field is recognised by a class or by an enum.
- A scope that has been read is never changed again, so a finished child is stored as a value.
- A scoped name is the list of its parts between `::`.
- The reflection checker has its class fields `C`, reflected fields `R`, swapped names `S` and ignored
  names `I`; the last three come from the collector, which guarantees that each is free of
  duplicates and that `S` and `I` are disjoint.
- Factors of the same weight and kind are tried in the order in which the authority lists them; the
  container that sorts them promises no order among equals.
- Shift amounts in `name_suffix` are 64-bit words; `Bits(i)` is the table 59, 54, ..., 4.
- Token amounts in the connector are naturals and division rounds down; the token type is not part
  of this repository. A sale needs something left of the supply, since the source divides by it.

Where code and documentation differ, the model follows the code:

- The header comment of the checker asks for only the fields that are out of order to be named as
  swapped. The code enforces this only in part. `MatcherSwaps.InPlaceExactly` says which needless
  swaps are rejected; `IgnoreHidesNeedlessSwap` and `SwapHidesNeedlessSwap` show accepted ones.
- A comment in `name_suffix` excepts leading dots from the dots that count. The code counts a leading
  dot with text after it like any other, and so do its test cases.
- A repeated `@ignore` or `@swap` name is meant to fail an assertion, but the assertion's message has
  a formatting error and raises another exception. Both end the validation; the model has one
  failure for them.
- The comment on the saved keys in the authority check says that keys newly used by an unsatisfied
  authority are not actually used. The cache may still count a permission that used them;
  `AuthorityCases.RevertLosesKeys` shows the loss.
- `pop_undo` reads the top of the stack before it checks that there is one. The model asks the caller
  for an open session there.

## Model

| member | source | states |
|---|---|---|
| Matcher.Validate | tools/validate_reflection.py:581-644 | the two loops with their cursors and lists compute the specified verdict, naming the assertion that fails |
| Matcher.DrainRest | tools/validate_reflection.py:632-640 | the second loop: reflected fields left over, matched against the swapped names still open |
| MatcherSoundness.AcceptedIsConsistent | tools/validate_reflection.py:590-644 | with no assumption on the four lists: acceptance implies that the class fields are, as a multiset, the reflected plus the ignored ones, that every swapped name is reflected, and that the fields neither swapped nor ignored are in the same order |
| MatcherSoundness.AcceptedClassHasNoDuplicates | tools/validate_reflection.py:584-644 | given what the collector guarantees, acceptance rules out repeated class fields |
| MatcherSoundness.SwappedButUnreflectedIsRejected | tools/validate_reflection.py:595-599 | a swapped name that is not reflected is never accepted, even if it is also ignored |
| MatcherExactness.ConsistentRun | tools/validate_reflection.py:590-644 | from any state the run can reach on a consistent input, the only assertion that can fail is the one about a swap in place |
| MatcherExactness.InPlaceIsCaught | tools/validate_reflection.py:595-602 | a swap in place is rejected from every earlier state of the run |
| MatcherExactness.Exact | tools/validate_reflection.py:590-644 | acceptance if and only if the lists are consistent and no swap is in place; on consistent lists the only other verdict is the rejection of a swap in place |
| MatcherSwaps.InPlaceExactly | tools/validate_reflection.py:19-24 | the in-place check fires exactly on the swaps that are needless and that no ignored field and no earlier swap hides |
| MatcherSwaps.RejectedSwapIsNeedless | tools/validate_reflection.py:600 | on consistent lists a rejection happens if and only if some unhidden swap could have been left out |
| MatcherSwaps.IgnoreHidesNeedlessSwap | tools/validate_reflection.py:603-609 | a needless swap behind an ignored field is accepted |
| MatcherSwaps.SwapHidesNeedlessSwap | tools/validate_reflection.py:603-621 | a needless swap listed after another swap is accepted, even with nothing ignored |
| MatcherSwaps.SingleMove | tools/validate_reflection.py:19-24 | one field moved any distance in either direction, and only it named: accepted, unless it did not move |
| MatcherSwaps.NoSwapWhenOrderIsUnchanged | tools/validate_reflection.py:595-602 | if the order is unchanged and nothing is ignored, acceptance if and only if no swap is listed |
| MatcherSwaps.ExchangeNamedTwice | tools/validate_reflection.py:22-24 | two neighbours exchanged and both named: rejected at every position and length |
| MatcherCauses.VerdictByCursors | tools/validate_reflection.py:584-644 | on lists the collector can produce, the verdict, with the assertion it names, is that of a matcher without any working list, which looks only at the two cursors and the four lists |
| MatcherCauses.RejectedForCause | tools/validate_reflection.py:599-644 | there, each assertion that fails stands for a fault of the four lists: a swap in the class but not reflected, a swap in place, an ignored field that comes up late or at once in the reflection, an uncovered field against another one, an ignore too many, a reflected field whose class occurrences are all ignored, a swap on neither side, a swap not in the class; one assertion never fails |
| MatcherCauses.WithoutDirectives | tools/validate_reflection.py:584-644 | without directives, on all lists: accepted if and only if equal, a mismatch if and only if the class is not a prefix of the reflection, an unknown field if and only if it is a proper prefix |
| MatcherCauses.NeverProvided | tools/validate_reflection.py:643 | the assertion that never fails there does fail for a name listed as swapped twice |
| Collector.Reflections.FindOrAdd | tools/validate_reflection.py:460-464 | creates an empty reflection once, in insertion order |
| Collector.Reflections.Add | tools/validate_reflection.py:484-503 | one name: the first objection in source order, or the name appended to its list; the book stays well formed either way |
| Collector.Reflections.AddAll | tools/validate_reflection.py:466-497 | the names of a comment or macro, up to the first refused one; classes stand in the order of their first entries |
| Collector.ExtendKeeps | tools/validate_reflection.py:486-501 | a name is refused exactly when adding it would repeat it or put it in both the ignored and the swapped list |
| Collector.CollectExactly | tools/validate_reflection.py:460-503 | a file is collected without error if and only if every class's lists come out duplicate-free with ignores and swaps disjoint, and then the classes are those mentioned, and each has exactly the names asked for, in file order, however classes interleave |
| Collector.FailsAtFirstOffence | tools/validate_reflection.py:484-503 | collecting stops at the first name that offends against those before it, and reports the only problem the name has |
| Validation.VerdictIsExact | tools/validate_reflection.py:574-644 | the exact verdict, with one more ignored name "id" for a chainbase object that neither reflects nor ignores it, and with the listed ignores otherwise; including an `id` that is also swapped |
| Validation.CheckReflection | tools/validate_reflection.py:571-644 | accepts if and only if the collected lists are acceptable for the class, whose fields are then distinct |
| Validation.OnlyIdMissing | tools/validate_reflection.py:574-578 | a class whose field "id" alone is missing from the reflection, without directives, is accepted if and only if it is a chainbase object |
| Validation.CollectedVerdict | tools/validate_reflection.py:558-644 | from all entries of a file to the verdict for given class fields |
| Scopes.Reader.Read | tools/validate_reflection.py:107-120 | reads a scope from its cursor to its end, or fails, as specified |
| Scopes.Reader.NextScope | tools/validate_reflection.py:301-343 | one child, or the last fields; the cursor moves strictly past a child |
| Scopes.LoadFile | tools/validate_reflection.py:550-551 | the global namespace of a file |
| ScopeLaws.PlainStep | tools/validate_reflection.py:301-343 | reading is token by token: a plain token adds its field and nothing else |
| ScopeLaws.OpenStep | tools/validate_reflection.py:320-343 | an opening brace is read as a child, and reading goes on after the child's end |
| ScopeLaws.ReadMatchesBraces | tools/validate_reflection.py:107-151 | a scope ends where a depth counter returns to zero, and is unclosed only if it never does |
| ScopeLaws.SkipExact | tools/validate_reflection.py:107-120 | that counter stops at the first index where the nesting depth drops below its start |
| ScopeLaws.AnonymousScopeExact | tools/validate_reflection.py:107-151 | reading an anonymous scope succeeds if and only if a matching brace exists, and ends at it |
| ScopeLaws.ReadNests | tools/validate_reflection.py:143-149 | the children gathered stay inside the scope, disjoint, in source order, each from its header's brace to the matching one |
| ScopeLaws.FileNests | tools/validate_reflection.py:320-341 | so for all scopes of a file, at every depth |
| ScopeRoundTrip.BodyRoundTrip | tools/validate_reflection.py:247-343 | reading a printed scope body, wherever it stands, gives its direct fields (members of a class or namespace, enumerators of an enum) and its direct named children in order, with positions: classes and enums in any named scope, namespaces in namespaces, and nothing in anonymous bodies; a namespace that inherits fails |
| ScopeRoundTrip.FileRoundTrip | tools/validate_reflection.py:301-343 | the same for a whole file; only at file level are the fields after the last scope dropped |
| FindClass.TerminatesExactly | tools/validate_reflection.py:153-185 | name resolution returns if and only if it meets no alias twice in one scope, and then returns what the guarded resolution finds |
| FindClass.TotalExactly | tools/validate_reflection.py:153-185 | every lookup from a scope terminates if and only if, in each scope that lookup can enter, the aliases not hidden by a child of the same name can be ranked so that each leads down |
| FindClass.SelfAliasLoops | tools/validate_reflection.py:176-179 | an alias for itself that no child hides makes the lookup run forever |
| FindClass.ReturnedOnWalk | tools/validate_reflection.py:160-182 | what is returned was found in a scope that the lookup called with the result's own name, at or below the start, among the scope's children or those of the class it inherits |
| FindClass.SingleNameExactly | tools/validate_reflection.py:166-185 | a call for one name returns the last child of that name; without one it follows the alias; without an alias it returns the last child of that name in the inherited class, or nothing |
| FindClass.QualifiedNameExactly | tools/validate_reflection.py:156-165 | a call for a qualified name goes on to the last child of its first part, or returns nothing |
| FindClass.NothingOnWalk | tools/validate_reflection.py:153-185 | nothing is returned only where a call on the walk has no child of the first name, and, for a single name, no alias and no inherited child |
| FileCheck.IgnoresIdExactly | tools/validate_reflection.py:222-240 | the `id` rule applies exactly to a base class written `object` or ending in `chainbase::object` |
| FileCheck.SplitJoins | tools/validate_reflection.py:154-159 | splitting a scoped name at its separators loses nothing and leaves none |
| FileCheck.FindsLocated | tools/validate_reflection.py:153-175 | a scope written under a path is found under it with its direct fields, whatever aliases and base classes there are; of scopes with the same name, the last |
| FileCheck.FileVerdict | tools/validate_reflection.py:550-644 | from the scopes and lists written in a file: the lookup of a reflected name finds the scope written under it, and the verdict is acceptance if and only if its direct fields are acceptable for the lists asked for, with "id" ignored for a base class written `object` or ending in `chainbase::object` |
| Names.ScanDots | unittests/misc_tests.cpp:34-49 | the loop finds the bits after the last dot that has text after it |
| Names.NameSuffix | unittests/misc_tests.cpp:33-61 | the result has the symbols after that dot, moved to the front and padded with dots, or is the name itself |
| Names.SuffixIsIdempotent | unittests/misc_tests.cpp:33-61 | no dot of a suffix has text after it; the suffix of a suffix is itself |
| NameBits.BitsCountDown | unittests/misc_tests.cpp:36 | the table of shift amounts counts down from 59 in steps of 5 |
| NameBits.SuffixSymbols | unittests/misc_tests.cpp:57-60 | mask and shifts move every symbol, the 4-bit thirteenth included, to its new place |
| NameBits.PartsAreDisjoint | unittests/misc_tests.cpp:60 | the masked part and the shifted thirteenth symbol share no bit |
| NameText.ToText | libraries/chain/name.cpp:18-32 | the decoding loop gives the thirteen letters without trailing dots |
| NameText.StringToName | libraries/chain/include/eosio/chain/name.hpp:21-38 | the encoding loop gives the packed value |
| NameText.EncodedCodes | libraries/chain/include/eosio/chain/name.hpp:9-38 | each place of an encoded value holds its character's symbol, and 0 past the end |
| NameLaws.NameRoundTrip | libraries/chain/name.cpp:18-32 | encoding the text of any 64-bit name gives the name back |
| NameLaws.SetExact | libraries/chain/name.cpp:9-16 | a text survives encoding and decoding if and only if it is at most thirteen letters of the alphabet, without trailing dot, the thirteenth from its first half |
| NameLaws.SetName | libraries/chain/name.cpp:9-16 | assignment from text accepts exactly those texts and stores a name with that text |
| NameLaws.SuffixText | unittests/misc_tests.cpp:65-82 | the suffix of a name, as text, is the text after its last dot |
| UndoLog.PermissionVisitor.Visit | unittests/misc_tests.cpp:203-205 | adds to the current list; open sessions keep their copies |
| UndoLog.PermissionVisitor.PushUndo | unittests/misc_tests.cpp:209-213 | saves a copy of the current list |
| UndoLog.PermissionVisitor.PopUndo | unittests/misc_tests.cpp:215-222 | the assertion holds, and the last saved copy becomes current |
| UndoLog.PermissionVisitor.SquashUndo | unittests/misc_tests.cpp:224-229 | forgets the last saved copy, or fails without an open session |
| UndoLog.Refines | unittests/misc_tests.cpp:203-229 | each operation on the log is the operation on the stack of copies |
| UndoLog.RunRefines | unittests/misc_tests.cpp:203-229 | so is every run; it fails if and only if a pop or squash has no open session |
| UndoLog.RunLeavesSurvivors | unittests/misc_tests.cpp:203-229 | from the start, a run leaves exactly the permissions recorded outside popped sessions, in order |
| UndoLog.PopUndoesSession | unittests/misc_tests.cpp:209-222 | a session around any balanced run, popped, leaves the log exactly as it was |
| UndoLog.SquashForgetsSession | unittests/misc_tests.cpp:209-229 | squashed, it is as if the session had not been opened |
| Authority.Checker.Evaluate | libraries/chain/include/eosio/chain/authority_checker.hpp:181-204 | the scan in order of weight, with used keys restored on failure, computes the specified answer and state |
| Authority.Checker.Tally | libraries/chain/include/eosio/chain/authority_checker.hpp:206-269 | the weight of one factor, with the cache, the depth limit and unknown permissions |
| Authority.Checker.IsSatisfied | libraries/chain/include/eosio/chain/authority_checker.hpp:137-145 | a call from outside starts with a cache of the provided permissions; only the used keys persist |
| Authority.Checker.IsGranted | libraries/chain/include/eosio/chain/authority_checker.hpp:112-120 | likewise for a single permission, checked as an account factor of weight one |
| Authority.RequiredKeys | libraries/chain/authorization_manager.cpp:571-593 | one checker grants the declared authorizations one after the other; the keys used in all, or failure |
| AuthorityLaws.SortedInOrder | libraries/chain/include/eosio/chain/authority_checker.hpp:33-46 | factors are tried heaviest first, then waits, keys, accounts, each exactly once |
| AuthorityOrder.TriedInOrder | libraries/chain/include/eosio/chain/authority_checker.hpp:33-42 | the order by weights and kinds: heavier first; on equal weights no key before a wait, and after an account only accounts |
| AuthorityOrder.AlikeInOrder | libraries/chain/include/eosio/chain/authority_checker.hpp:189-193 | factors of the same weight and kind keep their order |
| AuthorityOrder.SufficesByParts | libraries/chain/include/eosio/chain/authority_checker.hpp:220-269 | what an authority needs, from its three lists: covered waits, provided keys and granted accounts reach the threshold together |
| AuthorityOrder.KeysBeforeAccounts | libraries/chain/include/eosio/chain/authority_checker.hpp:195-203 | if accounts weigh no more than waits and keys, and these suffice, no permission is looked at and the used keys are those of the shortest sufficient run |
| AuthorityOrder.OnlyKeyUsed | libraries/chain/include/eosio/chain/authority_checker.hpp:195-203 | there, a single provided key that is needed is the only key used |
| AuthorityOrder.ProvidedIsGranted | libraries/chain/include/eosio/chain/authority_checker.hpp:158-180 | a provided permission, or any permission of an actor whose permission with the empty name is provided, is granted and uses no key |
| AuthorityOrder.UnknownGrantedExactly | libraries/chain/include/eosio/chain/authority_checker.hpp:158-180 | a permission without authority is granted only so |
| AuthorityLaws.SatisfiedIsDerivable | libraries/chain/include/eosio/chain/authority_checker.hpp:137-145 | soundness, cycles and all: what is satisfied suffices in every set of permissions closed under the authorities |
| AuthorityLaws.CheckKeys | libraries/chain/include/eosio/chain/authority_checker.hpp:183-203 | only provided keys become used, keys used before the call stay used, and none is added when the authority is not satisfied |
| AuthorityLaws.CheckGrows | libraries/chain/include/eosio/chain/authority_checker.hpp:236-263 | statuses in the cache never change, and no evaluation is left open |
| AuthorityLaws.LayersSolve | libraries/chain/include/eosio/chain/authority_checker.hpp:181-269 | without cycles and within the depth limit, the authorities have a solution |
| AuthorityLocal.CheckLocal | libraries/chain/include/eosio/chain/authority_checker.hpp:181-269 | permissions that the authority does not reach, or reaches only behind a provided one, make no difference to the answer, the used keys or the cache |
| AuthorityLocal.SatisfiedExactly | libraries/chain/include/eosio/chain/authority_checker.hpp:181-269 | if the permissions reached are without cycles and within the depth limit, whatever the others are, the answer agrees with every solution of their authorities |
| AuthorityLocal.DerivableExactly | libraries/chain/include/eosio/chain/authority_checker.hpp:137-145 | there, satisfied if and only if sufficient in every set of permissions closed under all authorities |
| AuthorityLocal.GrantedExactly | libraries/chain/include/eosio/chain/authority_checker.hpp:112-120 | there, a single permission is granted if and only if every closed set grants it |
| AuthorityPlain.RefinesPlain | libraries/chain/include/eosio/chain/authority_checker.hpp:181-269 | when no permission is counted twice on the way down to the depth limit, answer and used keys are those of the evaluation without cache and without reverting; chains may be longer than the limit |
| AuthorityPlain.PlainKeysSuffice | libraries/chain/include/eosio/chain/authority_checker.hpp:195-203 | in that evaluation the used keys suffice for every authority, and more keys never hurt |
| AuthorityPlain.UsedKeysSuffice | libraries/chain/include/eosio/chain/authority_checker.hpp:149-152 | when no permission is counted twice, the authority is satisfied again with the used keys alone, or with any more |
| AuthorityPlain.RequiredExactly | libraries/chain/authorization_manager.cpp:583-592 | required keys are returned if and only if every declared authorization is granted on its own, and they are the keys these grants use |
| AuthorityPlain.RequiredKeysSuffice | libraries/chain/authorization_manager.cpp:583-592 | then the keys returned as required are candidates and grant all declared authorizations again |
| AuthorityPlain.UsedKeysExactly | libraries/chain/include/eosio/chain/authority_checker.hpp:195-203 | then the used keys are exactly those of the shortest sufficient run of factors: its provided keys and the keys its satisfied permissions use |
| AuthorityPlain.DirectKeysExact | libraries/chain/include/eosio/chain/authority_checker.hpp:195-203 | the case without accounts, which holds from any cache: the provided keys of that run |
| AuthorityCases.RevertLosesKeys | libraries/chain/include/eosio/chain/authority_checker.hpp:183-265 | a permission counted twice, first inside an authority that fails: satisfied with no key used, refused with none; the required keys come out empty and do not suffice |
| AuthorityCases.CycleHidesGrant | libraries/chain/include/eosio/chain/authority_checker.hpp:236-263 | with a cycle, a derivable authority can be refused |
| AuthorityCases.DepthHidesGrant | libraries/chain/include/eosio/chain/authority_checker.hpp:239 | with a chain longer than the depth limit, a derivable authority is refused |
| Schedule.Fairness | unittests/producer_schedule_tests.cpp:19-22 | any window of one round, aligned or not, gives every position exactly its repetitions |
| Schedule.ExpectedFairly | unittests/producer_schedule_tests.cpp:17-23 | in any such window every producer of a schedule without repeats is expected in exactly 12 slots |
| Schedule.ExpectedByRun | unittests/producer_schedule_tests.cpp:19-22 | producers take turns of twelve slots in the order of the schedule |
| Schedule.PositionByRun | unittests/producer_schedule_tests.cpp:20 | a slot's position is its run's number modulo the schedule size |
| Schedule.NextRoundFirstBlock | unittests/producer_schedule_tests.cpp:36-43 | the least multiple of the round length above the head block, within one round |
| Schedule.RoundBoundary | unittests/producer_schedule_tests.cpp:19-43 | a round's first slot is the first producer's, the slot before it the last producer's |
| Schedule.DistanceIsCyclic | plugins/producer_plugin/producer_plugin.cpp:1010-1014 | the unsigned subtraction with its underflow check is the distance around the schedule |
| Schedule.NextSlotIsEarliest | plugins/producer_plugin/producer_plugin.cpp:1002-1022 | the slot chosen for a producer is its own, not before the minimum, and the earliest such slot |
| Bancor.Converter.ConvertTo | contracts/bancor/converter.hpp:31-47 | a purchase issues the two-step price times the payment, added to supply and balance |
| Bancor.Converter.ConvertFrom | contracts/bancor/converter.hpp:50-62 | a sale pays the two-step price times the amount, taken from supply and balance |
| Bancor.Converter.ConvertThrough | contracts/bancor/converter.hpp:95-111 | buying and selling at once leaves supply and balance as they were and pays what the two steps give |
| Bancor.ThroughMultiplies | contracts/bancor/converter.hpp:95-111 | at the default terms a payment of one can come back as 224 |
| Bancor.ThroughBound | contracts/bancor/converter.hpp:95-111 | with the payment in the reserve at a price of at most one, no more comes back than was paid |
| Bancor.ThroughBoundExactly | contracts/bancor/converter.hpp:95-111 | that threshold is exact: at a price, no conversion in any state pays back more than was paid if and only if the price is at most one |
| Bancor.SaleBound | contracts/bancor/converter.hpp:50-62 | above a threshold price the payout is at most the first estimate, which is at most the reserve |
| Bancor.DefaultSaleBound | contracts/bancor/converter.hpp:25 | at the default weight a price of one and half the supply are enough |
| Bancor.SaleBoundExactly | contracts/bancor/converter.hpp:50-62 | that threshold is exact: at a price, no sale in any state overpays if and only if the price reaches it |
| Bancor.PurchaseBound | contracts/bancor/converter.hpp:31-47 | above a threshold price a purchase issues at most the first estimate |
| Bancor.PurchaseBoundExactly | contracts/bancor/converter.hpp:31-47 | likewise for purchases: no purchase issues more than the first estimate if and only if the price reaches its threshold |

## Left out

- Regular expressions, comment stripping, the choice between regular-expression matches in `Reflections.read`, argument parsing, debug output and directory walking: library behaviour and input/output; tokens and field lists are taken as given.
- Collection of `using` aliases and the resolution of a class's base class while reading: `FindClass` takes aliases and inherited classes as given.
- FileCheck.FileVerdict: for names under which a scope is written; names reached only through an alias or a base class are left to `FindClass`, and the special case for `id_type` is easy dispatch.
- Scopes.Reader.Read: a child scope is stored as a finished value, so sharing of scope objects between parents is not captured.
- AuthorityLocal.DerivableExactly: assumes named permissions, those reached layered below the depth limit; with cycles only soundness is proved, since the answer then depends on the order of evaluation.
- AuthorityPlain.UsedKeysSuffice: one way only. A permission counted twice costs keys or not depending on weights, order and keys together, so that no condition on the counting alone is also necessary.
- Wrap-around of the 32-bit weight total in the authority check: weights are naturals; `validate` bounds the number of factors so that the total fits.
- Wrap-around of block numbers and slots: they are naturals. The 64-bit bound of names and the 64-bit subtraction in the producer's next slot are modelled.
- The second, empty call operator of `permission_visitor` and its logging.
- `checktime`, delay overrides, caches passed in from outside and the marker arrays behind `used_keys` in the authority check: used keys are a set.
- The watermark in `calculate_next_block_time`, which only raises the minimum slot.
- Dispatch, memo unpacking and sending in the Bancor converter: they refer to names the repository does not define.
- The rest of the chain, the contracts, the plugins and the tests that drive them.
