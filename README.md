# JS Miner Pro — a verified model of the finding pipeline

JS Miner Pro is a Burp Suite extension. It scans each proxied HTTP response with a configurable list of regular-expression rules. Every surviving match becomes a *finding*. The findings are deduplicated on a textual key, shown in a results table, and persisted in the project's extension data. The rule list is edited in a configuration table and persisted in the user's preferences.

This project models that core in Dafny and proves what the code promises about it.

- `finding.dfy`, module `Findings` (`Finding.java`): the finding record, including Java's nullable strings. It covers the constructor's `requestString`/`responseString` copies, the unique key `url :: type :: finding` and `equals`. It also covers `hashCode` with Java's 32-bit `String.hashCode` wrap-around written out.
- `regex_rule.dfy`, module `Rules` (`RegexRule.java`): the rule object as a class. `active` is mutable; name, regex and type are `const`.
- `results_tab.dfy`, module `Results` (`ResultsTab.java`): the finding store as a class.
  - Its fields are the ordered list, the key set, the table rows and the persisted store.
  - Its invariant `Valid` says three things: the keys of the list are pairwise distinct, their set is the key set, and the rows mirror the list.
  - The specification functions are `Insert` (add-if-key-absent), `InsertAll` (a sequence of adds) and `KeepFirst`. `KeepFirst` is an independent reference definition of first-occurrence deduplication.
- `config_tab.dfy`, module `Config` (`ConfigTab.java`): the rule list and the editable rule table as a class. It includes the table ⇄ rules conversions and their round trips, the built-in defaults, the load fallback and the add/delete row actions. `ConfigTab.GetRules` is the plain read of the `rules` field that the scan loop uses.
- `extension.dfy`, module `Extension` (`JsMinerExtension.java`): the HTTP handler.
  - The admission checks are a pure function `Admit`.
  - What one response should add is specified by `MatchFindings`, `RuleFindings`, `ScanFindings` and `ResponseFindings`.
  - The imperative handler (`JsMiner.HandleHttpResponseReceived` → `ScanBody` → `ScanRule` → `ScanMatches` → `ReportMatch`) is proved against those functions. Its rule loop and its `find()` loop each carry their own invariant.
- `persistence.dfy`, module `Persistence`: the host's key/value store (`map<string, string>`) and the result of a Gson decode (`Parsed`, JSON `null`, or a thrown syntax error).
- `wrappers.dfy`, module `Wrappers`: a `Result` datatype.
- `seqs.dfy`, module `Seqs`: a sequence-associativity lemma.

The Java regex engine is a parameter of type `RegexEngine`. For a pattern and a body it returns either a compile failure or the matches in the order `matcher.find()` returns them. Each match carries its offsets, `groupCount()`, a possibly-null `group(1)` and `group(0)`. Gson's `toJson`/`fromJson` are function-valued fields of the two tab classes.

How the handler and the tabs behave, as the code stands:
- Persisted findings or rules that are malformed JSON make Gson throw out of the tab constructors, and nothing falls back to the defaults. Stored rules that decode to JSON `null` also throw, in `refreshTable`.
- Every match that survives the PATH length floor is reported: the handler applies no further filtering of matched text.
- A response is skipped only for a 304 status, a MIME type name containing `IMAGE`, `CSS` or `FONT` (case-sensitive), a URL ending in `.css` or `.woff`, or an empty body. The scan then runs synchronously on the calling thread.
- The PATH length floor is Java's `String.length()`, which counts UTF-16 code units (`JavaLength`).

Two behaviours of the code are modelled as written and stated as lemmas:
- **The key is not injective.** A `::` inside the url, the type or the text shifts the separators (`KeyNotInjective`). A null finding text renders as the literal `null` (`NullRendersAsLiteral`).
- **A null group 1 on a PATH rule ends that rule's loop.** The `finding.length()` call throws, the exception is caught after the loop, and every later match of that rule is lost (`PathNullEndsRule`). On a rule of another type, a null group 1 reaches `addFinding` as a null finding text.

## Model

| member | source | states |
|---|---|---|
| Findings.NewFinding | JsMinerPro/src/main/java/com/burp/custom/model/Finding.java:24-42 | type, text, rule name, url, exchange, start and end are the arguments; `requestString` is non-null exactly when the exchange and its request are non-null, and is then the request's text; likewise `responseString` for the response |
| Findings.Int32 | JsMinerPro/src/main/java/com/burp/custom/model/Finding.java:73-76 | the result lies in the Java `int` range and is congruent to the input modulo 2^32 (two's-complement wrap-around) |
| Findings.StringHash | JsMinerPro/src/main/java/com/burp/custom/model/Finding.java:73-76 | `String.hashCode` of the key is a 32-bit `int` |
| Findings.HashCode | JsMinerPro/src/main/java/com/burp/custom/model/Finding.java:73-76 | `hashCode()` is a 32-bit `int` |
| Findings.Render | JsMinerPro/src/main/java/com/burp/custom/model/Finding.java:62 | how Java's `+` renders a nullable string: no contract of its own; `NullRendersAsLiteral` states the null case |
| Findings.UniqueKey | JsMinerPro/src/main/java/com/burp/custom/model/Finding.java:61-63 | the key `url::type::finding`: no contract of its own; its layout is `UniqueKeyLayout`, its collisions `KeyNotInjective`, its converse `KeyInjectiveWithoutColons` |
| Findings.UniqueKeyLayout | JsMinerPro/src/main/java/com/burp/custom/model/Finding.java:61-63 | the key is the url, "::", the type, "::" and the rendered text, each at its own position, and its length is their sum |
| Findings.Equals | JsMinerPro/src/main/java/com/burp/custom/model/Finding.java:65-71 | `equals(Object)`: no contract of its own; `EqualsRejectsOthers`, `SameIdentityEqual`, `EqualsIsEquivalence` and `EqualsAgreesWithHash` state its properties |
| Findings.SameIdentityEqual | JsMinerPro/src/main/java/com/burp/custom/model/Finding.java:61-71 | two findings with the same url, type and text are `equals` in both directions, whatever their rule name, offsets or exchange |
| Findings.EqualsRejectsOthers | JsMinerPro/src/main/java/com/burp/custom/model/Finding.java:65-68 | `equals` is false for null and for an object of another class |
| Findings.EqualsIsEquivalence | JsMinerPro/src/main/java/com/burp/custom/model/Finding.java:65-71 | `equals` is reflexive, symmetric and transitive on findings |
| Findings.EqualsAgreesWithHash | JsMinerPro/src/main/java/com/burp/custom/model/Finding.java:65-76 | equal findings have equal hash codes |
| Findings.KeyNotInjective | JsMinerPro/src/main/java/com/burp/custom/model/Finding.java:61-63 | two findings with different urls and types share the key `u::a::b::c` and are `equals` |
| Findings.NullRendersAsLiteral | JsMinerPro/src/main/java/com/burp/custom/model/Finding.java:61-63 | a null finding text and the text "null" give equal findings |
| Findings.KeyInjectiveWithoutColons | JsMinerPro/src/main/java/com/burp/custom/model/Finding.java:61-63 | when neither the type nor the text contains ':', equal keys mean equal url, type and text |
| Rules.RegexRule.constructor | JsMinerPro/src/main/java/com/burp/custom/model/RegexRule.java:4-21 | after construction the four getters return the four arguments |
| Rules.RegexRule.SetActive | JsMinerPro/src/main/java/com/burp/custom/model/RegexRule.java:18 | `isActive()` returns the new flag; name, regex and type are unchanged |
| Rules.Values | JsMinerPro/src/main/java/com/burp/custom/model/RegexRule.java:17-21 | the field values of a rule list, one per rule, in order |
| Results.KeysOf | JsMinerPro/src/main/java/com/burp/custom/ui/ResultsTab.java:32 | the unique keys of a list, one per finding, in list order |
| Results.KeySet | JsMinerPro/src/main/java/com/burp/custom/ui/ResultsTab.java:32 | the set `uniqueFindingKeys` mirrors: no contract of its own; `InsertKeys`, `InsertAllKeys` and `DistinctKeyCount` state how it evolves |
| Results.Insert | JsMinerPro/src/main/java/com/burp/custom/ui/ResultsTab.java:103-106 | the list grows by at most one element, and is unchanged when it does not grow |
| Results.InsertKeys | JsMinerPro/src/main/java/com/burp/custom/ui/ResultsTab.java:103-105 | after an insert the key set is the old one plus the finding's key, and distinct keys stay distinct |
| Results.InsertAll | JsMinerPro/src/main/java/com/burp/custom/ui/ResultsTab.java:138-144 | inserting a sequence never shrinks the list, and leaves it unchanged when it does not grow |
| Results.InsertAllKeys | JsMinerPro/src/main/java/com/burp/custom/ui/ResultsTab.java:138-144 | after inserting a sequence the key set is the union of both key sets, and distinct keys stay distinct |
| Results.KeepFirst | JsMinerPro/src/main/java/com/burp/custom/ui/ResultsTab.java:138-144 | first-occurrence deduplication keeps only elements of its input, none of them with a key already seen |
| Results.InsertAllAppend | JsMinerPro/src/main/java/com/burp/custom/ui/ResultsTab.java:103-106 | inserting `a + b` is inserting `a` and then `b` |
| Results.KeepFirstSnoc | JsMinerPro/src/main/java/com/burp/custom/ui/ResultsTab.java:138-144 | one more element at the end is kept exactly when its key is new to the seen set and to the list before it |
| Results.InsertAllIsKeepFirst | JsMinerPro/src/main/java/com/burp/custom/ui/ResultsTab.java:138-144 | loading a persisted list appends exactly the first occurrence of each key that the store did not already hold, in persisted order |
| Results.InsertAllAbsorbs | JsMinerPro/src/main/java/com/burp/custom/ui/ResultsTab.java:103 | findings whose keys are all present already leave the list unchanged |
| Results.InsertAllIdempotent | JsMinerPro/src/main/java/com/burp/custom/ui/ResultsTab.java:103 | delivering the same findings twice adds nothing the second time |
| Results.InsertAllOfDistinct | JsMinerPro/src/main/java/com/burp/custom/ui/ResultsTab.java:138-144 | a persisted list whose keys are distinct from each other and from the store loads as itself, appended |
| Results.DistinctKeyCount | JsMinerPro/src/main/java/com/burp/custom/ui/ResultsTab.java:31-32 | with distinct keys, the key set has as many keys as the list has findings |
| Results.LoadedCount | JsMinerPro/src/main/java/com/burp/custom/ui/ResultsTab.java:138-144 | loading into an empty store yields exactly one finding per distinct key of the persisted list |
| Results.Saved | JsMinerPro/src/main/java/com/burp/custom/ui/ResultsTab.java:107 | the store after saving on every growth of the list: a predicate with no contract of its own; `SavedTrans` composes it and `HandleHttpResponseReceived` ends in it |
| Results.SavedTrans | JsMinerPro/src/main/java/com/burp/custom/ui/ResultsTab.java:107-128 | saving after each growth of the list composes: the store ends up holding the encoding of the final list, or unchanged if the list never grew |
| Results.StoredFindings | JsMinerPro/src/main/java/com/burp/custom/ui/ResultsTab.java:130-138 | loading fails exactly when a non-empty stored string is malformed JSON; a non-empty stored string that parses yields exactly the decoded list; a null or empty string or a JSON `null` yields the empty list |
| Results.ResultRowOf | JsMinerPro/src/main/java/com/burp/custom/ui/ResultsTab.java:106 | the row `[type, finding, ruleName, url]` of a finding: no contract of its own; `AddFinding` states the row it appends |
| Results.RowsOf | JsMinerPro/src/main/java/com/burp/custom/ui/ResultsTab.java:106 | the table mirroring a list has one row per finding |
| Results.ResultsTab.Valid | JsMinerPro/src/main/java/com/burp/custom/ui/ResultsTab.java:31-32 | the store invariant (distinct keys equal to the key set, rows mirroring the list): a predicate, kept by the constructor, `AddFinding`, `Remember`, `ClearResults`, `LoadFindings` and the handler |
| Results.ResultsTab.constructor | JsMinerPro/src/main/java/com/burp/custom/ui/ResultsTab.java:36-97 | the new store satisfies the invariant and holds the first occurrence of each key of the persisted list, in persisted order |
| Results.ResultsTab.AddFinding | JsMinerPro/src/main/java/com/burp/custom/ui/ResultsTab.java:99-110 | inserts exactly when the key is absent; a new finding is appended with its row `[type, finding, ruleName, url]` and the store then holds the encoding of the whole list; a duplicate changes nothing, including the store; the invariant holds after |
| Results.ResultsTab.Remember | JsMinerPro/src/main/java/com/burp/custom/ui/ResultsTab.java:103-106 | the shared add-if-absent step: key set, list and rows grow together or not at all, keeping the invariant |
| Results.ResultsTab.ClearResults | JsMinerPro/src/main/java/com/burp/custom/ui/ResultsTab.java:112-122 | the table, the list and the key set are empty, and the persisted entry is deleted |
| Results.ResultsTab.SaveFindings | JsMinerPro/src/main/java/com/burp/custom/ui/ResultsTab.java:124-128 | the store holds the encoding of the whole current list under `jsminer_findings` |
| Results.ResultsTab.LoadFindings | JsMinerPro/src/main/java/com/burp/custom/ui/ResultsTab.java:130-147 | the persisted findings are inserted in order, skipping keys already present; a null or empty stored string or a JSON `null` changes nothing; a malformed string reports failure and changes nothing; the store is never written |
| Config.TableOf | JsMinerPro/src/main/java/com/burp/custom/ui/ConfigTab.java:95-100 | the table has one row per rule |
| Config.RulesOfTable | JsMinerPro/src/main/java/com/burp/custom/ui/ConfigTab.java:102-111 | the rule list read from a table has one rule per row |
| Config.TableOfAt | JsMinerPro/src/main/java/com/burp/custom/ui/ConfigTab.java:95-100 | row i of the table is (active, name, regex, type) of rule i |
| Config.TableRoundTrip | JsMinerPro/src/main/java/com/burp/custom/ui/ConfigTab.java:95-111 | refreshing the table and then saving from it gives back the same rules, field by field |
| Config.RulesRoundTrip | JsMinerPro/src/main/java/com/burp/custom/ui/ConfigTab.java:95-111 | saving rules from a table and refreshing it gives back the same table |
| Config.DefaultRules | JsMinerPro/src/main/java/com/burp/custom/ui/ConfigTab.java:88-93 | exactly two active rules: "Relative Paths" of type PATH, then "Generic Secrets" of type SECRET |
| Config.LoadedRules | JsMinerPro/src/main/java/com/burp/custom/ui/ConfigTab.java:77-86 | the defaults when the stored string is null or empty; the decoded list when it parses; an error exactly when a non-empty string does not parse to a list |
| Config.RowOf | JsMinerPro/src/main/java/com/burp/custom/ui/ConfigTab.java:98 | the row (active, name, regex, type) of a rule: no contract of its own; `TableOfAt` and the round trips state it |
| Config.RuleOf | JsMinerPro/src/main/java/com/burp/custom/ui/ConfigTab.java:105-109 | the rule built from a row's columns 0-3: no contract of its own; `TableRoundTrip` and `RulesRoundTrip` show it inverts `RowOf` |
| Config.ConfigTab.GetRules | JsMinerPro/src/main/java/com/burp/custom/ui/ConfigTab.java:116 | returns the current `rules` field; a plain field read with no contract of its own |
| Config.ConfigTab.constructor | JsMinerPro/src/main/java/com/burp/custom/ui/ConfigTab.java:23-75 | the rule list is the loaded one, as fresh rule objects, and the table mirrors it |
| Config.ConfigTab.LoadRules | JsMinerPro/src/main/java/com/burp/custom/ui/ConfigTab.java:77-100 | on success the rules are the loaded values and the table mirrors them; on failure the rule objects are unchanged, and the table is unchanged after malformed JSON but emptied after JSON `null` |
| Config.ConfigTab.LoadStoredRules | JsMinerPro/src/main/java/com/burp/custom/ui/ConfigTab.java:81-100 | a non-empty stored string succeeds exactly when it parses, and the rules are then the decoded values with the table mirroring them; malformed JSON changes nothing; JSON `null` keeps the rule objects and empties the table |
| Config.ConfigTab.NewRules | JsMinerPro/src/main/java/com/burp/custom/ui/ConfigTab.java:81-82 | fresh rule objects holding the given values, in order |
| Config.ConfigTab.CreateDefaultRules | JsMinerPro/src/main/java/com/burp/custom/ui/ConfigTab.java:88-93 | the rule list is a new list holding the two default rules |
| Config.ConfigTab.RefreshTable | JsMinerPro/src/main/java/com/burp/custom/ui/ConfigTab.java:95-100 | the table has one row per rule, in order, each (active, name, regex, type) |
| Config.ConfigTab.SaveRulesFromTable | JsMinerPro/src/main/java/com/burp/custom/ui/ConfigTab.java:102-114 | the rules are one new rule per row, in row order, built from columns 0-3; the store holds their encoding |
| Config.ConfigTab.ResetToDefaults | JsMinerPro/src/main/java/com/burp/custom/ui/ConfigTab.java:66-72 | rules, table and stored rules are the defaults |
| Config.ConfigTab.AddRuleRow | JsMinerPro/src/main/java/com/burp/custom/ui/ConfigTab.java:59 | exactly the row (true, "New Rule", "", "PATH") is appended |
| Config.ConfigTab.DeleteSelectedRow | JsMinerPro/src/main/java/com/burp/custom/ui/ConfigTab.java:61-64 | only the selected row is removed; nothing changes when no row is selected (-1) |
| Extension.JavaLength | JsMinerPro/src/main/java/com/burp/custom/JsMinerExtension.java:96 | `String.length()` lies between the character count and twice it |
| Extension.JavaLengthOfBmp | JsMinerPro/src/main/java/com/burp/custom/JsMinerExtension.java:96 | on text without characters outside the Basic Multilingual Plane, `length()` is the character count |
| Extension.SupplementaryCountsTwice | JsMinerPro/src/main/java/com/burp/custom/JsMinerExtension.java:96 | a slash followed by one emoji has two characters but `length()` 3, so it clears the PATH floor |
| Extension.StaticAsset | JsMinerPro/src/main/java/com/burp/custom/JsMinerExtension.java:72 | the MIME/URL deny test: no contract of its own; `Admit` states it through `Occurs` and `LowerCaseMimeNeverSkips` shows it is case-sensitive |
| Extension.FindingText | JsMinerPro/src/main/java/com/burp/custom/JsMinerExtension.java:92 | group 1 when the pattern has groups, else the whole match: no contract of its own; `MatchFindingsShape` states the text each finding carries |
| Extension.EndsRule | JsMinerPro/src/main/java/com/burp/custom/JsMinerExtension.java:96 | a PATH rule meeting a null text: no contract of its own; `PathNullEndsRule` states its effect |
| Extension.MatchStep | JsMinerPro/src/main/java/com/burp/custom/JsMinerExtension.java:96-114 | the `addFinding` call of one match: no contract of its own; `OtherTypesKeepEveryMatch` and `PathKeepsLongTexts` state when it reports |
| Extension.MatchFindings | JsMinerPro/src/main/java/com/burp/custom/JsMinerExtension.java:91-118 | one rule's `find()` loop: no contract of its own; `MatchFindingsAppend` and `MatchFindingsSingle` split it match by match in order, `OtherTypesKeepEveryMatch` and `PathKeepsLongTextsInOrder` give it outright, `PathNullEndsRule` states the truncation, and `JsMiner.ScanMatches` is proved against it |
| Extension.RuleFindings | JsMinerPro/src/main/java/com/burp/custom/JsMinerExtension.java:85-118 | one rule's findings: no contract of its own; `SilentRuleDropped` states the inactive and non-compiling cases, and `JsMiner.ScanRule` is proved against it |
| Extension.ScanFindings | JsMinerPro/src/main/java/com/burp/custom/JsMinerExtension.java:84-119 | the rule loop's findings: no contract of its own; `ScanAppend`, `RuleIsolation` and `ScanFindingsFromActiveRules` state it, and `JsMiner.ScanBody` is proved against it |
| Extension.ResponseFindings | JsMinerPro/src/main/java/com/burp/custom/JsMinerExtension.java:56-121 | all findings of one response: no contract of its own; `JsMiner.HandleHttpResponseReceived` is proved against it |
| Extension.Contains | JsMinerPro/src/main/java/com/burp/custom/JsMinerExtension.java:72 | `mime.contains(t)`: no contract of its own; `ContainsIff` states it is occurrence at some index |
| Extension.EndsWith | JsMinerPro/src/main/java/com/burp/custom/JsMinerExtension.java:72 | `url.endsWith(t)`: the last characters of the url are t; a predicate with no contract of its own, used by `Admit` |
| Extension.MatchFinding | JsMinerPro/src/main/java/com/burp/custom/JsMinerExtension.java:92-114 | the finding `addFinding` builds for one match: no contract of its own; `MatchFindingsShape` states its fields |
| Extension.ContainsIff | JsMinerPro/src/main/java/com/burp/custom/JsMinerExtension.java:72 | the left-to-right `contains` search succeeds exactly when the text occurs at some index |
| Extension.Admit | JsMinerPro/src/main/java/com/burp/custom/JsMinerExtension.java:56-79 | each skip reason holds exactly when its check is the first to fire (304; IMAGE/CSS/FONT in the MIME name or a .css/.woff url; empty body), and scanning happens exactly when none fires |
| Extension.NoUpperCaseNoOccurrence | JsMinerPro/src/main/java/com/burp/custom/JsMinerExtension.java:72 | a text starting with an upper-case letter is never contained in a string without upper-case letters |
| Extension.LowerCaseMimeNeverSkips | JsMinerPro/src/main/java/com/burp/custom/JsMinerExtension.java:72 | for every MIME name without upper-case letters, a response is a static asset exactly when its url ends in .css or .woff: the MIME tests are case-sensitive |
| Extension.MatchFindingsShape | JsMinerPro/src/main/java/com/burp/custom/JsMinerExtension.java:91-115 | no more findings than matches; each finding carries the rule's type and name, the url, the exchange, and the offsets and selected text (group 1 if any group, else the whole match) of some match; on a PATH rule the text is non-null and at least 3 UTF-16 units long |
| Extension.MatchFindingsAppend | JsMinerPro/src/main/java/com/burp/custom/JsMinerExtension.java:91-115 | for a run of matches none of which ends the rule, the findings of the run followed by more matches are the run's findings followed by the rest's, so each match contributes in match order |
| Extension.MatchFindingsSingle | JsMinerPro/src/main/java/com/burp/custom/JsMinerExtension.java:92-114 | a single match that does not end the rule yields exactly its own step: one `addFinding`, or none for a short PATH text |
| Extension.LongTextMatches | JsMinerPro/src/main/java/com/burp/custom/JsMinerExtension.java:96 | the matches a PATH rule keeps, in order: each is one of the input matches and has a text of at least 3 UTF-16 units |
| Extension.FindingsOf | JsMinerPro/src/main/java/com/burp/custom/JsMinerExtension.java:106-114 | one finding per match, in match order |
| Extension.OtherTypesKeepEveryMatch | JsMinerPro/src/main/java/com/burp/custom/JsMinerExtension.java:91-115 | a rule of a type other than PATH yields exactly one finding per match, in match order |
| Extension.PathKeepsLongTextsInOrder | JsMinerPro/src/main/java/com/burp/custom/JsMinerExtension.java:91-115 | a PATH rule whose matches all have a text reports exactly the matches of at least 3 UTF-16 units, once each, in match order |
| Extension.PathNullEndsRule | JsMinerPro/src/main/java/com/burp/custom/JsMinerExtension.java:91-118 | on a PATH rule, a match with a null text discards itself and every later match of that rule |
| Extension.PathKeepsLongTexts | JsMinerPro/src/main/java/com/burp/custom/JsMinerExtension.java:96-114 | on a PATH rule, a match with a text of at least 3 UTF-16 units yields its finding when no earlier match had a null text |
| Extension.ScanAppend | JsMinerPro/src/main/java/com/burp/custom/JsMinerExtension.java:84-119 | the findings of two consecutive rule lists are the concatenation of their findings |
| Extension.RuleIsolation | JsMinerPro/src/main/java/com/burp/custom/JsMinerExtension.java:84-119 | whatever one rule does, the rules before and after it contribute exactly their own findings, in list order |
| Extension.SilentRuleDropped | JsMinerPro/src/main/java/com/burp/custom/JsMinerExtension.java:85-118 | an inactive rule, or one whose pattern does not compile, contributes nothing and does not affect the others |
| Extension.ScanFindingsFromActiveRules | JsMinerPro/src/main/java/com/burp/custom/JsMinerExtension.java:84-115 | every finding comes from an active rule of the list and carries its type and name and the url |
| Extension.HandleHttpRequestToBeSent | JsMinerPro/src/main/java/com/burp/custom/JsMinerExtension.java:50-52 | the request continues unchanged |
| Extension.JsMiner.constructor | JsMinerPro/src/main/java/com/burp/custom/JsMinerExtension.java:33-34 | the handler holds the two tabs and the engine |
| Extension.JsMiner.HandleHttpResponseReceived | JsMinerPro/src/main/java/com/burp/custom/JsMinerExtension.java:56-122 | the response continues unchanged; the store receives exactly the adds of the scan specification (none when not admitted), in order; the store invariant holds and the persisted copy is the encoding of the final list when it grew, unchanged otherwise |
| Extension.JsMiner.ScanBody | JsMinerPro/src/main/java/com/burp/custom/JsMinerExtension.java:82-119 | the rule loop adds the findings of every rule of the current list, rule by rule |
| Extension.JsMiner.ScanRule | JsMinerPro/src/main/java/com/burp/custom/JsMinerExtension.java:85-118 | one rule adds exactly its own findings: none when inactive or not compiling |
| Extension.JsMiner.ScanMatches | JsMinerPro/src/main/java/com/burp/custom/JsMinerExtension.java:91-118 | the `find()` loop adds one finding per surviving match, in match order, stopping at a PATH match with a null text |
| Extension.JsMiner.ReportMatch | JsMinerPro/src/main/java/com/burp/custom/JsMinerExtension.java:92-114 | one match adds nothing when it is a PATH text shorter than 3 UTF-16 units, and otherwise adds its finding through `addFinding` |

## Left out

- Swing: layout, cell editors, table rendering, the selection listener that fills the request/response viewers, and the JOptionPane confirmation before a reset. Only the table contents are modelled, as sequences of rows.
- Threading: `addFinding` and `clearResults` defer their work through `SwingUtilities.invokeLater`, and Burp calls the handler from proxy threads. Each operation is modelled as one atomic, synchronous step, so the window in which the key set already holds a key whose finding is not yet listed is not modelled.
- Java regular-expression semantics (`Pattern.compile`, `Matcher.find`, groups): the engine is not visible and is a parameter of the model. Runtime exceptions other than a compile failure and the null-text `length()` call are not modelled.
- JSON structure: Gson's `toJson`/`fromJson` are opaque functions. A persisted finding list that contains a null element, or a rule with missing fields, is not modelled.
- Logging, extension registration and tab wiring in `initialize`, and the rebuilding of the `HttpRequestResponse` for each finding. The exchange a finding carries is the request's and the response's text.
- Results.ResultsTab.constructor: requires that the persisted findings load, because a malformed string makes Gson throw out of the constructor and no tab exists.
- Config.ConfigTab.constructor: requires that the stored rules load, for the same reason.
- Findings.StringHash: hashes Dafny characters, not UTF-16 code units, so a key with a character outside the Basic Multilingual Plane hashes differently than in Java. The PATH length floor does count UTF-16 units (`Extension.JavaLength`).
- Config.ConfigTab.LoadStoredRules: on stored JSON `null` it keeps the old rule objects, where the source sets `rules` to null; the model cannot hold a null list.
- Config.ConfigTab.LoadRules: after stored JSON `null` the source leaves `rules` null; the model cannot hold a null list, so it keeps the old rule objects. The constructor throws in that case, so no caller sees the state.
- Extension.JsMiner.ScanBody: reads every rule's fields once before the loop. Nothing in the loop writes a rule, so each iteration reads the same values as the source does.
- Getters of `Finding` and `RegexRule` are the fields themselves. `getRules` is the field read `Config.ConfigTab.GetRules`, which has no contract of its own.
- `Error`-class failures (out of memory, stack overflow) that would escape the `catch (Exception e)` are not modelled.
