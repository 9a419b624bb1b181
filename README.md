# Ansible IPA rule/group modules and the Zanata module, modelled in Dafny

This project models three Ansible modules.

- `ipa_hbacrule` makes a FreeIPA host-based access control rule present, enabled, disabled or absent. It does this over FreeIPA's JSON-RPC interface.
- `ipa_sudocmdgroup` does the same for a FreeIPA sudo command group.
- `zanata` drives a Zanata translation server's REST interface. It creates a project, modifies it, creates a version, or reads details, statistics or a version's configuration.

The two IPA modules share one shape:
1. Build a module dict from the given options.
2. Look the entry up.
3. Add it, or send a modify call carrying only the keys whose values differ.
4. Reconcile each given member list by removing the names the server has that were not asked for, and adding the names asked for that it lacks.
5. Report whether anything changed, and return the entry as it now is.

In check mode nothing is posted.

The FreeIPA server is modelled as a map from entry names to entries. Each entry holds its attributes and its member sets. `IpaClient.Apply` is what the server does with each mutating call. The client is a class:
- its `entries` field is the server's state;
- its `calls` field is the mutating calls posted so far;
- its invariant is that the state equals the starting state with the calls applied.

For each module, `ensure` is a method proved against two functions of the starting store:
- `Plan`, the calls it posts;
- `Changed`, the flag it returns.

Lemmas then prove what those calls achieve:
- the entry converges to what was asked for;
- no other entry changes;
- a second run posts nothing and reports no change;
- absent deletes.

For Zanata, the HTTP exchange is an input to the model: the status, the transport's message and the body the server would return. JSON decoding is a function parameter, `decode`. The model covers:
- the required-parameter check;
- the URL normalisation;
- the request each operation sends (method, URL, headers, body);
- how a reply is interpreted;
- the exit result.

Files:
- `wrappers.dfy`: Option and Result.
- `json.dfy`: JSON values and Python truthiness.
- `sequences.dfy`: the subsequence and substring relations.
- `ipa_values.dfy`: module dicts, the attribute diff.
- `ipa_client.dfy`: the server model, the reply unwrapping, the client class.
- `ipa_reconcile.dfy`: the shared `modify_if_diff` and add/modify logic, with convergence proofs.
- `hbacrule.dfy`, `sudocmdgroup.dfy`, `zanata.dfy`: the three modules.

## Model

| member | source | states |
|---|---|---|
| IpaClient.Client.constructor | identity/ipa/ipa_hbacrule.py:178-183 | a new client stores protocol, host and port, has no session headers yet, and has posted nothing |
| IpaClient.Client.BaseUrl | identity/ipa/ipa_hbacrule.py:185-186 | the base URL is `protocol://host/ipa`, and protocol and host can be read back from it; the port is not part of it |
| IpaClient.Client.JsonUrl | identity/ipa/ipa_hbacrule.py:188-189 | every JSON-RPC post goes to the base URL followed by `/session/json` |
| IpaClient.Client.Login | identity/ipa/ipa_hbacrule.py:191-209 | a status outside 200/201/204 fails with `login: <body>` and keeps the old headers; otherwise the JSON session headers with the cookie are stored |
| IpaClient.PostReply | identity/ipa/ipa_hbacrule.py:218-245 | a bad status fails naming the method; an `error` member fails; otherwise the result is `result`, or `result.result`, or the first element of `result.result` when that is a non-empty list, or None without `result` |
| IpaClient.Client.Find | identity/ipa/ipa_hbacrule.py:247-248 | the lookup returns the named entry exactly when it exists, and changes nothing |
| IpaClient.Client.Post | identity/ipa/ipa_sudocmdgroup.py:151-178 | a mutating post is recorded; the server applies it; the reply is the entry as it now stands; the client invariant is kept |
| IpaClient.SetMembers | identity/ipa/ipa_hbacrule.py:259-281 | a member add/remove call changes only the one member attribute it names and leaves the attributes alone |
| IpaValues.DictOf | identity/ipa/ipa_hbacrule.py:284-300 | the dict built from optional arguments has only keys of given arguments |
| IpaValues.DictOfLookup | identity/ipa/ipa_hbacrule.py:284-300 | each given argument is stored under its own key with its value unchanged; an omitted one is absent |
| IpaValues.DictOfDistinct | identity/ipa/ipa_hbacrule.py:284-300 | the dict's keys are distinct |
| IpaValues.AttrMap | identity/ipa/ipa_hbacrule.py:250-254 | the attributes a server stores from a dict are exactly its keys with their values |
| IpaValues.GetDiff | identity/ipa/ipa_hbacrule.py:303-315 | the loop returns exactly `DiffKeys`: the keys whose sorted, scalar-wrapped values compare unequal |
| IpaValues.DiffKeysReported | identity/ipa/ipa_hbacrule.py:303-315 | a key is reported if and only if the module dict has it and the IPA value differs from it |
| IpaValues.DiffKeysNoDuplicates | identity/ipa/ipa_sudocmdgroup.py:228-240 | each key is reported at most once |
| IpaValues.DiffKeysInOrder | identity/ipa/ipa_sudocmdgroup.py:228-240 | reported keys come in the module dict's order |
| IpaValues.DiffKeysIgnoresIpaOnlyKeys | identity/ipa/ipa_hbacrule.py:303-315 | attributes only the IPA entry has do not affect the diff |
| IpaValues.DiffKeysEmpty | identity/ipa/ipa_hbacrule.py:303-315 | the diff is empty if and only if no module key differs |
| IpaValues.SortedEqualIffSameElements | identity/ipa/ipa_hbacrule.py:309-311 | two sorted lists are equal if and only if the lists hold the same elements with the same counts |
| IpaValues.Sort | identity/ipa/ipa_hbacrule.py:309-311 | `sorted` returns the same elements with the same counts |
| IpaValues.SortSorted | identity/ipa/ipa_hbacrule.py:309-311 | the list `sorted` returns is in order |
| IpaReconcile.SetOf | identity/ipa/ipa_hbacrule.py:318-332 | `set(list)` holds exactly the list's elements |
| IpaReconcile.ReconcileCallsShape | identity/ipa/ipa_hbacrule.py:318-332 | the calls are empty if and only if the sets agree, and they are only remove/add calls for this list |
| IpaReconcile.ReconcileConverges | identity/ipa/ipa_hbacrule.py:318-332 | removing `have - want` then adding `want - have` leaves exactly `want`, and changes nothing else |
| IpaReconcile.ModifyIfDiff | identity/ipa/ipa_sudocmdgroup.py:212-225 | returns true if and only if the sets differ, and posts the remove then the add (nothing in check mode) |
| IpaReconcile.ReconcileIfGiven | identity/ipa/ipa_hbacrule.py:381-384 | a given list is reconciled against the snapshot and ORs its result into the flag; an omitted one posts nothing |
| IpaReconcile.ModItem | identity/ipa/ipa_hbacrule.py:373-377 | the modify request holds exactly the differing keys, in order, with the module dict's values |
| IpaReconcile.BuildModItem | identity/ipa/ipa_hbacrule.py:373-377 | the loop builds exactly that modify request |
| IpaReconcile.CreateOrModify | identity/ipa/ipa_hbacrule.py:366-379 | adds a missing entry or modifies a differing one, and reports change exactly when it has a call; the snapshot is the add's reply, or the entry as found |
| IpaReconcile.AttrCalls | identity/ipa/ipa_hbacrule.py:366-379 | the add/modify step posts at most one call |
| IpaReconcile.AddedAgrees | identity/ipa/ipa_hbacrule.py:367-371 | an entry created from the module dict has an empty diff against it |
| IpaReconcile.ModifiedAgrees | identity/ipa/ipa_hbacrule.py:372-379 | merging the modify request into the attributes makes the next diff empty |
| IpaReconcile.AttrCallsConverge | identity/ipa/ipa_hbacrule.py:366-379 | after the add/modify step the entry exists, its diff is empty, its members are kept, and no other entry changes |
| IpaReconcile.SlotCallsEmptyIff | identity/ipa/ipa_hbacrule.py:381-420 | the member lists post nothing if and only if none of them differs |
| IpaReconcile.SlotCallsConverge | identity/ipa/ipa_hbacrule.py:381-420 | after the list calls each given list's attribute holds exactly its set, the rest are kept, and attributes and other entries are untouched |
| IpaReconcile.WantedAt | identity/ipa/ipa_hbacrule.py:381-420 | with distinct attributes, a given list is what is wanted under its attribute |
| IpaReconcile.PresentConverges | identity/ipa/ipa_hbacrule.py:366-420 | the present branch leaves the entry existing with an empty diff and every given list set, and changes no other entry |
| IpaReconcile.PresentSetsGiven | identity/ipa/ipa_hbacrule.py:381-420 | after the present branch, a given list's attribute is exactly the set of names given |
| IpaReconcile.PresentIdempotent | identity/ipa/ipa_hbacrule.py:366-420 | running the present branch again on its own result posts nothing |
| HbacRule.EnabledFlag | identity/ipa/ipa_hbacrule.py:339-342 | the flag is `TRUE` if and only if the state is present or enabled, and `NO` otherwise |
| HbacRule.RuleDict | identity/ipa/ipa_hbacrule.py:284-300 | each of the six options is stored under its own key exactly when given; there are no other keys, and keys are distinct |
| HbacRule.MemberLists | identity/ipa/ipa_hbacrule.py:381-420 | the eight member lists go in source order, each filed under its own attribute |
| HbacRule.ReconcileLists | identity/ipa/ipa_hbacrule.py:381-420 | the eight lists in turn post their calls and OR their results into the flag |
| HbacRule.EnsurePresent | identity/ipa/ipa_hbacrule.py:366-420 | the present branch posts the plan's calls; it fails if and only if check mode hides a missing rule and a list is given; it reports change if and only if the rule was missing, an attribute differs, or a given list differs |
| HbacRule.Ensure | identity/ipa/ipa_hbacrule.py:335-427 | posts `Plan` (nothing in check mode); the server ends at the plan applied; fails exactly under `Fails`; returns `Changed` and the rule as it now is |
| HbacRule.PlanKeepsOthers | identity/ipa/ipa_hbacrule.py:366-420 | present, enabled and disabled leave the rule existing and every other rule unchanged |
| HbacRule.PlanSetsGivenLists | identity/ipa/ipa_hbacrule.py:381-420 | each given member list ends as exactly the names given |
| HbacRule.PlanConvergesAttrs | identity/ipa/ipa_hbacrule.py:339-379 | the enabled flag and every given attribute end equal to what was asked |
| HbacRule.AbsentDeletes | identity/ipa/ipa_hbacrule.py:421-425 | absent deletes the rule when it exists and touches nothing else |
| HbacRule.ChangedIffPlan | identity/ipa/ipa_hbacrule.py:335-427 | the returned flag is true if and only if there are calls to post |
| HbacRule.PlanIdempotent | identity/ipa/ipa_hbacrule.py:335-427 | a second run on the resulting server posts nothing and reports no change |
| SudoCmdGroup.GroupDict | identity/ipa/ipa_sudocmdgroup.py:205-209 | the dict has a `description` key exactly when one is given, holding it, and no other key |
| SudoCmdGroup.EnsurePresent | identity/ipa/ipa_sudocmdgroup.py:252-270 | posts the present calls; fails if and only if check mode hides a missing group and commands are given; with commands the flag is the membership result alone |
| SudoCmdGroup.Ensure | identity/ipa/ipa_sudocmdgroup.py:243-277 | posts `Plan` (nothing in check mode); the server ends at the plan applied; fails exactly under `Fails`; returns `Changed` and the group as it now is |
| SudoCmdGroup.NotPresentDeletes | identity/ipa/ipa_sudocmdgroup.py:271-275 | every state but present deletes the group, and reports change if and only if it existed |
| SudoCmdGroup.PlanConverges | identity/ipa/ipa_sudocmdgroup.py:252-270 | present leaves the group existing with the given description and exactly the given commands, and no other group changes |
| SudoCmdGroup.PlanIdempotent | identity/ipa/ipa_sudocmdgroup.py:243-277 | a second run posts nothing and reports no change |
| SudoCmdGroup.ChangedHasCalls | identity/ipa/ipa_sudocmdgroup.py:243-277 | a reported change always comes with calls to post |
| SudoCmdGroup.ChangedIffPlanWithoutCommands | identity/ipa/ipa_sudocmdgroup.py:252-266 | without commands, the flag is true if and only if there are calls to post |
| SudoCmdGroup.CreationNotReported | identity/ipa/ipa_sudocmdgroup.py:267-270 | with an empty command list, adding a missing group posts the add but reports no change, because the membership result overwrites the flag |
| Zanata.Required | web_infrastructure/zanata.py:254-263 | every operation needs url and project id; version is needed exactly by create_version, stats and config; username and token exactly by the writing operations |
| Zanata.MissingExact | web_infrastructure/zanata.py:291-294 | a parameter is reported missing if and only if it is required and its value is empty or unset |
| Zanata.MissingInOrder | web_infrastructure/zanata.py:291-294 | missing parameters come in the table's order |
| Zanata.MissingParams | web_infrastructure/zanata.py:291-294 | the loop collects exactly the missing required parameters |
| Zanata.Names | web_infrastructure/zanata.py:295-298 | the message names each missing parameter by its option name, in order |
| Zanata.JoinContains | web_infrastructure/zanata.py:297 | every item of a `", ".join(...)` appears in the joined string |
| Zanata.MissingMessage | web_infrastructure/zanata.py:295-298 | the failure message opens with `[ <operation> ] operation requires: ` and names every missing parameter |
| Zanata.NormaliseUrl | web_infrastructure/zanata.py:300-302 | the URL ends with a slash: unchanged when it had one, otherwise extended by one |
| Zanata.NormaliseIdempotent | web_infrastructure/zanata.py:300-302 | normalising twice is normalising once |
| Zanata.BaseUrl | web_infrastructure/zanata.py:300-303 | the REST root is the normalised URL followed by `rest` |
| Zanata.HeadersFor | web_infrastructure/zanata.py:160-173 | headers are Accept and Content-Type, plus the auth pair exactly when user and token are both set; Content-Type is JSON; Accept is XML only for config |
| Zanata.ProjectArgs | web_infrastructure/zanata.py:196-210 | create_project PUTs to `<base>/projects/p/<id>` with the user's credentials and a body of exactly name, id, description and type; the op is `modify` when asked, `create` otherwise |
| Zanata.ArgsFor | web_infrastructure/zanata.py:196-241 | per operation: writes PUT a body with credentials, reads GET with neither; the op tag, and the project, version, statistics and config paths each operation uses |
| Zanata.Interpret | web_infrastructure/zanata.py:179-193 | a status outside 200/201/204 fails with the transport message; 201 on create and 200 on modify give the fixed messages; config gives the raw body or `{}`; otherwise the decoded body or `{}` |
| Zanata.RestCall | web_infrastructure/zanata.py:159-193 | sends the request the arguments describe, and returns the interpreted reply |
| Zanata.PrepareExit | web_infrastructure/zanata.py:244-250 | `changed` is set, and true, exactly for writing operations; `msg` is present exactly when the server return is truthy, and is that return |
| Zanata.Run | web_infrastructure/zanata.py:265-315 | fails with the missing-parameter message before sending anything; otherwise sends the operation's request and exits with the prepared result |
| Zanata.MissingFails | web_infrastructure/zanata.py:291-298 | the run fails without sending a request if and only if a required parameter is missing |
| Zanata.CreateAndModifyAgree | web_infrastructure/zanata.py:196-214 | modify sends the create_project request with the modify operation |
| Zanata.WritesPutReadsGet | web_infrastructure/zanata.py:196-241 | writing operations send PUT with a JSON body and credentials; reads send GET with no body |
| Zanata.ReadPathsFollowWritePaths | web_infrastructure/zanata.py:196-241 | detail reads the project path create_project writes; config reads the version path plus `/config` |
| Zanata.HeadersByOperation | web_infrastructure/zanata.py:160-173 | reads carry no credentials; config alone asks for XML |
| Zanata.ModifyReportsNoMessage | web_infrastructure/zanata.py:213-214 | modify discards the reply, so a successful modify exits changed with no message |
| Zanata.CreateReportsMessage | web_infrastructure/zanata.py:179-182 | a 201 create_project exits changed with `Creation successful!` |
| Zanata.CreateVersionReportsMessage | web_infrastructure/zanata.py:217-224 | a 201 create_version exits changed with `Creation successful!` |
| Zanata.ConfigReportsRawBody | web_infrastructure/zanata.py:186-189 | config exits with the raw body text, undecoded |
| Zanata.ReadsReportDecodedBody | web_infrastructure/zanata.py:186-193 | detail and stats exit with the decoded body; an empty body gives no message |

## Left out

- HTTP transport is not modelled: `fetch_url`, TLS, certificate validation and redirects. Zanata's status, message and body are inputs. An IPA post is assumed to succeed and to do what `IpaClient.Apply` says.
- JSON encoding and decoding are not modelled. Zanata takes `decode` as a parameter. `IpaClient.PostReply` takes the decoded reply.
- The login form data and password, and reading `Set-Cookie`, are not modelled. The cookie is an input of `IpaClient.Client.Login`.
- `_fail`'s extraction of a `message` member is not modelled. `_fail` raises through `fail_json`, so the IPA `ensure` methods assume every post succeeds. `IpaClient.PostReply` models the failure cases on their own.
- `IpaClient.Client.Post`: the server effect of a call is total. A server-side rejection part-way through `ensure` is not modelled.
- The exception handler in `_post_json` is not modelled. A missing-attribute error in check mode is modelled as the `Failure` of `Ensure`.
- In `zanata`, the `except Exception` in `main` is modelled for the one exception the modelled code can raise: a body that does not decode. `Zanata.Interpret` returns `decode`'s failure, and `Zanata.Outcome` and `Zanata.Run` pass it on as the run's failure. Other exceptions (transport errors, `e.message` formatting) are not modelled.
- Argument parsing by `AnsibleModule` is not modelled: defaults, choices, aliases, `no_log` and the `ipa_*` connection options. The port is stored but no URL uses it, in the source too.
- The `find` request's own shape (`all`, `cn`) is not modelled. `Find` reads the server map.
- Member names are compared as sets, as `set(...)` does. The order of names in the remove/add requests is not modelled.
- `zanata`'s dispatch through `getattr` is modelled as a `match` on the operation.
- The entry point (`main`) of `ipa_hbacrule` and `ipa_sudocmdgroup` is not modelled: the login with the configured credentials, the call of `ensure`, and the exit. `Ensure` and `Login` are modelled on their own.
- `zanata`'s `main` after argument parsing is `Zanata.Run`: the required-parameter check, URL normalisation, dispatch, the handler for a failed decode, and the exit result. Only the termination through `exit_json`/`fail_json` is left out; `Run` returns the result instead.
- The modules' documentation strings are not modelled.
- `SudoCmdGroup.Ensure` follows the code as written. With `sudocmd` given, the membership result replaces the flag from the add or modify step. In `ipa_hbacrule` it is ORed in. So a newly added group whose commands already match reports no change (`SudoCmdGroup.CreationNotReported`).
- The server model files each member list's add and remove calls under the attribute the module reads back, for example `sourcehost_group` for the source host groups of `ipa_hbacrule`. `HbacRule.PlanSetsGivenLists`, `HbacRule.PlanIdempotent` and the `SudoCmdGroup` lemmas hold only for a server that reports each list under that attribute. How FreeIPA itself names them is not modelled.
