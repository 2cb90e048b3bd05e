# Verified model of the LLM dashboard's stateful services

The project models seven mechanisms of the repository and proves what holds over whole runs of them.

| file | mechanism |
|---|---|
| `Text.dfy`, `Wrappers.dfy`, `Rounding.dfy` | strings, options and results, rounding to four and eight places |
| `TemplateEngine.dfy` | `{{name}}` extraction and rendering by repeated replacement |
| `PromptRows.dfy`, `PromptStore.dfy` | the prompt table, interleaved version allocation, publishing, rollback, lineage |
| `RateLimit.dfy` | the sliding-window limiter (429 and Retry-After: section 4 of RFC 6585, section 10.2.3 of RFC 9110) |
| `SemanticCache.dfy` | the per-tenant embedding index and its separately expiring responses |
| `RefreshTokens.dfy`, `VirtualKeys.dfy` | refresh-token rotation, virtual-key rotation and its model list |
| `QuotaCounters.dfy` | daily and monthly usage counters with time-to-live |
| `ConfigRegistry.dfy` | layered configuration with a truncated change log |
| `Forecast.dfy`, `Billing.dfy` | budget exhaustion, contract split, grouping and rounded invoice lines |

Objects that change in place are classes whose methods are proved against functions on values; the main theorems are
lemmas about those functions and about runs built from them. Money, similarities and instants are reals.

## Findings

Where the code does not meet what its documentation or callers might expect, the model keeps the code and states exactly
when the expectation holds.

- A rollback to a version that does not exist archives every version and still commits
  (`modules/prompts/repository.py:64-86`). The docstring's "only ONE is published at a time" holds as "at most one";
  `PromptStore.PublishedIffNotMissed` says when it is exactly one, `PromptStore.RollbackToMissingUnpublishes` gives a run.
- `{{ x }}` with blanks is detected and demanded as a variable but never substituted
  (`TemplateEngine.RenderedCleanIffUnpadded`, at an input: `TemplateEngine.BlanksGreetNobody`).
- An update that drops every placeholder inherits the variables of its source, so it cannot be rendered without values it
  no longer uses (`PromptStore.PlainUpdateKeepsRequirements`, at an input: `PromptStore.PlainUpdateStillNeedsName`).
- Rendering replaces one variable after the other, so the order of the definitions matters as soon as a value contains
  another variable's placeholder, or ends with the beginning of one that the template goes on to complete: with `{` for a,
  `{{a}}{b}}` becomes `{{b}}` (`TemplateEngine.UnsafeValueDependsOnOrder`, `TemplateEngine.OpenBraceDependsOnOrder`). A
  placeholder that is replaced by itself does no harm. This is the exact condition, for any definitions and values:
  `TemplateEngine.OrderNeverMattersIff`, and `TemplateEngine.AlwaysSimultaneousIff` for replacement being substitution.
- The arguments of a rendering are passed as keywords to a method whose receiver is called `self`
  (`modules/prompts/service.py:305`, `modules/prompts/models.py:194`). An argument of that name makes any rendering fail
  with an error the service does not translate, and a template with `{{self}}` and auto-detected variables can never be
  rendered (`TemplateEngine.AutoDetectedRenderableIff`, `TemplateEngine.CallFailsIff`).
- Retry-After is exact on authentication keys only. On an address shared by reads and writes it can be too short
  (`RateLimit.RetryAfterCanBeTooShort`, exact condition in `RateLimit.RetryAfterSufficesIff`).
- Responses stored with very different lifetimes can outlive the index that lists them, and then survive an invalidation
  (`SemanticCache.ShortLifetimeUncovers`, exact condition in `SemanticCache.StoreKeepsCoverageIff`).
- Refresh tokens are single-use exactly when decoding rejects a token from its expiry on, as section 4.1.4 of RFC 7519
  asks; any grace period defeats it (`RefreshTokens.SingleUseIffNoGrace`). Which side the program is on depends on the
  expiry check of the `jose` library (`modules/auth/service.py:32`), which is not part of this model. A check on whole
  seconds that refuses only `exp < now` would be one second of grace (`RefreshTokens.WholeSecondCheckIsGrace`).
- A configuration value is checked after conversion but stored before it. With an integer default, fractions just beyond
  the range on the side away from zero are accepted: 10000.9 against a maximum of 10000, and -0.5 against a minimum of 0
  (`ConfigRegistry.AcceptedMayExceedMaximum`, `ConfigRegistry.AcceptedMayFallBelowMinimum`; exact interval in
  `ConfigRegistry.NumberAcceptedIff`). A text that parses is accepted and stays a text (`ConfigRegistry.AcceptedMayBeText`,
  exactly when: `ConfigRegistry.TextAcceptedIff`). An accepted value is stored as it was checked exactly when it already
  has the default's type (`ConfigRegistry.StoredAsCheckedIff`), and counts as the number that was checked exactly when it
  is neither a text nor a fraction under an integer default (`ConfigRegistry.SameAmountIff`).
- Not-a-number passes every range of a float default, since it is neither below the minimum nor above the maximum
  (`core/config_registry.py:223-234`, `ConfigRegistry.FloatAcceptedIff`, `ConfigRegistry.TextAcceptedIff`).
- Rotating a virtual key does not keep its expiry: the successor always expires 365 days later, even when the old key
  never would (`VirtualKeys.RotationsKeepPermissions`).
- A requested list of model names is granted as asked only if each name is non-empty, unpadded and comma-free
  (`VirtualKeys.RequestedIsGrantedIff`). If every name consists of blanks and commas the restriction is lost altogether:
  the key reads like one without restriction, and a rotation makes it one (`VirtualKeys.RestrictionIsLostIff`,
  `VirtualKeys.LostRestrictionIsRotatedAway`, at an input: `VirtualKeys.BlankNameLosesRestriction`).

## Model

| member | source | states |
|---|---|---|
| TemplateEngine.Render | modules/prompts/models.py:194-221 | a call fails on an argument named like the receiver; otherwise the loop over definitions is the specified sequence of replacements and stops at the first required variable without a value |
| TemplateEngine.RenderFailsIffMissing | modules/prompts/models.py:214-216 | on any text, once the call is bound, rendering fails exactly when a required variable has no value, and reports the first one |
| TemplateEngine.CallFailsIff | modules/prompts/service.py:304-307 | on any text, a call fails exactly when an argument is named self or a required variable has no value |
| TemplateEngine.RequiredSelfIsUnrenderable | modules/prompts/models.py:194-216 | a template with a required variable named self and no default fails under every choice of arguments |
| TemplateEngine.SuppliedArgumentsWin | modules/prompts/models.py:213 | on any text and for any definitions, the defaults of names that are supplied as arguments make no difference |
| TemplateEngine.OneVariableRenders | modules/prompts/models.py:213-219 | one definition on any template: a supplied value fills its slots, else the default does; with neither, or with an explicit None, a required variable is an error and an optional one leaves the template alone |
| TemplateEngine.RenderComposes | modules/prompts/models.py:209-219 | rendering with a list of definitions is rendering with its first part and then with the rest |
| TemplateEngine.ReplaceLeftmost | modules/prompts/models.py:219 | on any text the leftmost occurrence is replaced and the search goes on behind it |
| TemplateEngine.Binding | modules/prompts/models.py:209-219 | with duplicate definitions the first one that has a value wins; none means no definition of the name has one |
| TemplateEngine.ReplaceFillsSlots | modules/prompts/models.py:219 | on any template whose literal parts cannot start the placeholder of a name, replacing it fills exactly the slots of that name |
| TemplateEngine.SequentialIsSimultaneous | modules/prompts/models.py:208-221 | one-variable-at-a-time replacement equals one simultaneous substitution, errors included, for every template and all values that cannot start the placeholder of a later definition |
| TemplateEngine.AlwaysSimultaneousIff | modules/prompts/models.py:208-221 | replacement is simultaneous substitution on every template and for every selection of the definitions, in any order, if and only if no value can start another definition's placeholder, unless that one is replaced by itself |
| TemplateEngine.DeclarationOrderIsIrrelevant | modules/prompts/models.py:209-219 | when no value can start another definition's placeholder, the order of any selection of the definitions changes neither success nor text |
| TemplateEngine.OrderNeverMattersIff | modules/prompts/models.py:209-219 | for any definitions and values: order never matters, on any template and for any selection, if and only if no value can start another definition's placeholder, unless that one is replaced by itself |
| TemplateEngine.TwoOrdersAgreeIff | modules/prompts/models.py:209-219 | the same for two definitions: both orders agree on every template if and only if neither value can start the other's placeholder, unless that one is replaced by itself |
| TemplateEngine.OrderMattersIff | modules/prompts/models.py:209-219 | on one placeholder between safe texts: two orders disagree exactly when the other placeholder occurs from the substituted value on and is not replaced by itself |
| TemplateEngine.ReplaceChangesIff | modules/prompts/models.py:219 | a replacement changes a text exactly when the pattern occurs in it and is not replaced by itself |
| TemplateEngine.UnsafeValueDependsOnOrder | modules/prompts/models.py:209-219 | an instance: "Hello {{a}}" with values "{{b}}" and "x" |
| TemplateEngine.OpenBraceDependsOnOrder | modules/prompts/models.py:209-219 | an instance without a placeholder in any value: "Hello {{a}}{b}}" with values "{" and "x" |
| TemplateEngine.ExtractVariables | modules/prompts/service.py:358-373 | the seen-set loop returns the first appearances of the stripped matches |
| TemplateEngine.ExtractionOrder | modules/prompts/service.py:366-373 | every name is listed, once, ordered by where it first appears |
| TemplateEngine.ExtractionFindsSlots | modules/prompts/service.py:365 | on a template's text the regular expression finds its placeholder slots in order and nothing else |
| TemplateEngine.FindLeftmost | modules/prompts/service.py:365 | on any text the extraction takes the leftmost placeholder and goes on behind it |
| TemplateEngine.FindsNothingIff | modules/prompts/service.py:365 | it finds nothing if and only if no placeholder starts anywhere in the text |
| TemplateEngine.PlaceholderIff | modules/prompts/service.py:365 | a placeholder is a non-empty word, possibly with blanks on either side |
| Text.WordCharacters | modules/prompts/service.py:365 | within ASCII the word characters are the letters, the digits and the underscore |
| Text.BlankCharacters | modules/prompts/service.py:365 | within ASCII the blanks are ten control characters and the space |
| TemplateEngine.AutoDetectedRenderLeavesOnlyPadded | modules/prompts/service.py:62-65 | with auto-detected variables and a safe value for each, a call succeeds exactly when no argument is named self, and then leaves exactly the placeholders written with inner blanks |
| TemplateEngine.RenderedCleanIffUnpadded | modules/prompts/service.py:358-373 | the text a successful call renders is free of placeholders if and only if none was written with inner blanks |
| TemplateEngine.AutoDetectedRenderableIff | modules/prompts/service.py:62-65 | any text with auto-detected variables can be rendered by some arguments if and only if none of them is named self |
| TemplateEngine.SelfPlaceholderNeverRenders | modules/prompts/service.py:305 | an instance: a template that ends with its only placeholder {{self}} fails for every choice of arguments |
| TemplateEngine.PaddedPlaceholderStays | modules/prompts/service.py:365-370 | a template that ends with its only placeholder, written with blanks, demands a value that never appears |
| PromptRows.Latest | modules/prompts/repository.py:140-150 | the highest version of a prompt, 0 when none exists |
| PromptRows.VersionsAreExact | modules/prompts/service.py:55-56 | in a gap-free table the versions of a prompt are exactly 1 to its latest |
| PromptRows.RefusedIffOvertaken | modules/prompts/models.py:177 | a prepared row is refused exactly when its id is taken or another transaction took its number; otherwise it is the next number |
| PromptRows.ReleaseKeepsInv | modules/prompts/repository.py:64-93 | publishing keeps at most one published row per prompt, flag and status in agreement, and every immutable column |
| PromptRows.LineageEndsAtRoot | modules/prompts/service.py:139-158 | walking parent links stays in one prompt, strictly descends in version and ends at a parentless row |
| PromptStore.StepKeepsInv | modules/prompts/service.py:91-98 | every operation of every open transaction keeps the table invariants and changes no immutable column |
| PromptStore.CommittedVersionsAreExact | modules/prompts/service.py:126-128 | under every interleaving of read-highest and insert-next the committed versions are 1..n, unique, and an insert is refused exactly when overtaken |
| PromptStore.PublishedFollowsHistory | modules/prompts/repository.py:46-93 | in every reachable state the rows published are exactly those of the version the history last released |
| PromptStore.PublishedIffNotMissed | modules/prompts/service.py:199-218 | exactly one row of a prompt carries the published flag if it exists and its last publish or rollback did not name a missing version, and none otherwise |
| PromptStore.RollbackToMissingUnpublishes | modules/prompts/repository.py:64-86 | an instance: creating a prompt and rolling back to version 2 leaves its only version archived |
| PromptStore.HistoryExtends | modules/prompts/service.py:112-118 | rows are immutable across any continuation of a history, apart from lifecycle columns |
| PromptStore.RollbackRestores | modules/prompts/service.py:207-218 | after any continuation, rolling back to a version makes default lookup and rendering agree with every earlier rendering of it |
| PromptStore.AutoCreatedRenders | modules/prompts/service.py:58-65 | a prompt created without declared variables, given safe values, renders exactly when no argument is named self |
| PromptStore.DeclaredVariablesRender | modules/prompts/service.py:59-60 | for every request with declared variables and all arguments, the created or updated version renders by exactly the declared definitions |
| PromptStore.UndeclaredVariablesRender | modules/prompts/service.py:130-148 | without declared variables it renders by those of the text, required and without defaults; an update of plain text by those of its source |
| PromptStore.DefaultGreets | modules/prompts/models.py:213 | an instance: an optional name with a default renders by default, and by name if one is given |
| PromptStore.ChooseVariables | modules/prompts/service.py:130-135 | declared variables, else those of the text, else the inherited ones |
| PromptStore.PlainUpdateKeepsRequirements | modules/prompts/service.py:130-148 | an update without placeholders inherits its source's variables and fails exactly when a required one is missing or an argument is named self |
| PromptStore.PlainUpdateStillNeedsName | modules/prompts/service.py:148 | an instance: updating "Hello {{name}}" to "Hello everyone" |
| PromptStore.PromptService.CreatePrompt | modules/prompts/service.py:38-104 | creation is one read-then-commit transaction that stores the request as it is: next version, declared or detected variables, published by its author exactly when it is the first |
| PromptStore.PromptService.UpdatePrompt | modules/prompts/service.py:106-167 | updating adds a draft derived from its source, with declared, detected or inherited variables and system message, or reports the source missing |
| PromptStore.PromptService.UpdatePublishedStatus | modules/prompts/repository.py:63-93 | archiving everything and then publishing the target is the one-shot release, and returns none exactly when the target is missing |
| PromptStore.PromptService.Publish | modules/prompts/service.py:169-197 | publishes the named row, or does nothing when the id is unknown |
| PromptStore.PromptService.Rollback | modules/prompts/service.py:199-225 | republishes the target version; the release happens even when it is missing |
| PromptStore.PromptService.GetPrompt | modules/prompts/service.py:231-246 | finds the named or published row, and the single-row query never meets two rows |
| PromptStore.PromptService.RenderPrompt | modules/prompts/service.py:287-324 | renders the looked-up version, passes on either failure of the call, and counts the use only on success |
| RateLimit.LimitOf | core/rate_limit.py:64-70 | the limit of a request: 10 on authentication keys, 60 for writes and 200 otherwise on address keys |
| RateLimit.DecidedByOwnAdmissions | core/rate_limit.py:86-130 | in every run a request that is not exempt is decided by the admissions of the last 60 seconds of its own address and, on an authentication path, of that path, against 10, 60 or 200 |
| RateLimit.AllowancesAreIsolated | core/rate_limit.py:97-99 | in every run the arrivals of other addresses and other kinds of path could as well be missing |
| RateLimit.NewcomerIsNotRejected | core/rate_limit.py:97-99 | an address that has not been seen is never rejected |
| RateLimit.ExemptPasses | core/rate_limit.py:90-92 | requests under the six exempt prefixes, and no others, pass undecided and unrecorded |
| RateLimit.WindowBound | core/rate_limit.py:105-128 | no window holds more admissions under limits up to L than L, whatever other limits share the list |
| RateLimit.EveryWindowIsBounded | core/rate_limit.py:94-129 | in every run and window at most 10 authentication admissions, 200 per address, 60 writes per address |
| RateLimit.PruningIsUnobservable | core/rate_limit.py:104-106 | filtering the stored list yields the same recent admissions as filtering the whole history |
| RateLimit.RateLimiter.CleanupOldEntries | core/rate_limit.py:72-84 | the minute clean-up filters every list and drops empty keys, leaving the history as it was |
| RateLimit.RateLimiter.Dispatch | core/rate_limit.py:86-137 | every decision equals that of a limiter that never forgets, whether or not the clean-up ran |
| RateLimit.AdmissibleIff | core/rate_limit.py:99-108 | a rejected request becomes admissible exactly when its limit-th newest admission expires |
| RateLimit.RunIsTimely | core/rate_limit.py:94-128 | under a clock that never goes back, every key's admissions are in time order and not in the future |
| RateLimit.AuthRetryAfterIsTight | core/rate_limit.py:108-121 | after any run, a rejected authentication request sees exactly 10 recent admissions, becomes admissible when the oldest expires, and Retry-After overshoots that instant by at most a second |
| RateLimit.RetryAfterSufficesIff | core/rate_limit.py:109 | after any run and for any request, waiting Retry-After suffices if and only if the limit-th newest admission expires by then |
| RateLimit.RetryAfterCanBeTooShort | core/rate_limit.py:109 | behind any 61 to 200 reads of one address, one early and the rest ten seconds later, a write is rejected, told 51 seconds, and rejected again after waiting them |
| SemanticCache.StaleMissShrinks | core/response_cache.py:270-273 | a stale miss removes exactly one index entry and no acceptable answer |
| SemanticCache.CleanUpRemovesOne | core/response_cache.py:270-273 | the clean-up takes one entry out of one index at every later instant, and concerns nothing else |
| SemanticCache.RepeatedLookupSettles | core/response_cache.py:244-283 | at a fixed instant, index size + 1 lookups contain a first non-stale one, a hit exactly when a live acceptable entry existed, and then one of maximal similarity |
| SemanticCache.RunIsCovered | core/response_cache.py:316-340 | in every run with lifetimes between ttl and twice ttl, live responses are listed in an index that outlives them |
| SemanticCache.EveryLiveEntryIsIndexed | core/response_cache.py:316-340 | each unexpired response is in its tenant's live index and both parts come from the latest store call for it |
| SemanticCache.LiveQuestionIsFound | core/response_cache.py:211-283 | in every reachable state, repeating a question whose response has not expired is never a miss, for normalised embeddings and thresholds up to 1 |
| SemanticCache.StoredIsFound | core/response_cache.py:211-346 | the same right after any store; alone in the cache it is a hit with that very response and similarity 1 |
| SemanticCache.StoredLives | core/response_cache.py:316-340 | a store makes its response readable for the lifetime and its index for twice that, and concerns nothing else |
| SemanticCache.SimilarityIsAtMostOne | core/response_cache.py:184-195 | normalised vectors of one length have similarity at most 1, and 1 exactly when they are the same |
| SemanticCache.OwnEmbeddingWins | core/response_cache.py:235-258 | among normalised embeddings the best match of a stored one carries that very embedding |
| SemanticCache.DotAdds | core/response_cache.py:194 | the product of concatenated vectors is the sum of the products |
| SemanticCache.PreviewIsBeginning | core/response_cache.py:336 | the preview is the longest beginning of the prompt with at most 200 characters |
| SemanticCache.SemanticCacheService.IdentityOfEmbeddings | core/response_cache.py:197-201 | an entry's identity depends on the first eight components and on all of them |
| SemanticCache.InvalidationIsComplete | core/response_cache.py:352-365 | invalidating a tenant leaves it no live response, now or later, and touches no other tenant |
| SemanticCache.StoreKeepsCoverageIff | core/response_cache.py:328-340 | after a store coverage lasts if and only if no live response outlasts the index expiry being set |
| SemanticCache.ShortLifetimeUncovers | core/response_cache.py:328-340 | lifetimes 100 then 1 leave a live response unlisted and immune to invalidation |
| SemanticCache.SemanticCacheService.Store | core/response_cache.py:289-346 | stores both parts, metadata included, or nothing without an embedding |
| SemanticCache.SemanticCacheService.Lookup | core/response_cache.py:211-283 | the scanning loop performs one lookup step: a best eligible match, cleaned up if stale |
| SemanticCache.SemanticCacheService.InvalidateTenant | core/response_cache.py:352-365 | deletes the listed responses and the index, and counts them |
| RefreshTokens.MakeToken | modules/auth/service.py:105-121 | the whole-second expiry lies within a second below issue time plus lifetime |
| RefreshTokens.TokensKeepTheirSubject | modules/auth/service.py:105-139 | in every run each token carries its own identifier and the user whose login its rotations descend from |
| RefreshTokens.TokensKeepTheirTerm | modules/auth/service.py:105-139 | in every run each token is of the kind its event issued, in whole seconds from that instant, for 15 minutes or 7 days |
| RefreshTokens.EntryExpiry | modules/auth/service.py:162-163 | a blacklist entry outlives the token it blocks, by less than a second |
| RefreshTokens.NoGraceIsSingleUse | modules/auth/service.py:222-254 | in every run no refresh token is exchanged twice although blacklist entries expire |
| RefreshTokens.GraceAllowsReplay | modules/auth/service.py:161-163 | with any grace in decoding, a concrete run exchanges a token twice |
| RefreshTokens.WholeSecondCheckIsGrace | modules/auth/service.py:141-149 | a decoder that compares whole seconds and refuses only exp < now grants exactly one second of grace |
| RefreshTokens.SingleUseIffNoGrace | modules/auth/service.py:222-254 | single use in every run if and only if decoding rejects at expiry |
| RefreshTokens.RotationNeverAdds | modules/auth/service.py:234-254 | a rotation trades the presented token for one new one, or loses it for an inactive user; the usable tokens never increase |
| RefreshTokens.UsableAtMostLogins | modules/auth/service.py:222-254 | at any instant of any run there are at most as many usable refresh tokens as logins |
| RefreshTokens.TokenService.BlacklistToken | modules/auth/service.py:151-165 | the entry lives for the token's remaining whole seconds, at least one |
| RefreshTokens.TokenService.RotateRefreshToken | modules/auth/service.py:222-254 | the checks, the blacklisting before the user check, and the new pair: both tokens for the presented user, with the new identifiers, kinds and terms |
| VirtualKeys.RequestedIsGrantedIff | modules/auth/service.py:584-586 | the granted list equals the requested one if and only if each name is non-empty, unpadded and comma-free |
| VirtualKeys.GrantedAreStripped | modules/auth/models.py:201-205 | a request without commas grants exactly its names without surrounding blanks, in order |
| VirtualKeys.ExpiryInSeconds | modules/auth/service.py:567-569 | no days or zero days mean no expiry, any other number so many times 86400 seconds |
| VirtualKeys.RestrictionIsLostIff | modules/auth/models.py:203-205 | a requested restriction reads like none if and only if every requested name consists of blanks and commas |
| VirtualKeys.LostRestrictionIsRotatedAway | modules/auth/service.py:713 | the successor of a key stores no restriction at all if and only if the requested one was lost in that way |
| VirtualKeys.ReparseIsStable | modules/auth/models.py:201-205 | parse(join(parse(s))) = parse(s) for every stored string |
| VirtualKeys.RotationsKeepPermissions | modules/auth/service.py:709-718 | any number of rotations keeps the permitted models and limits, depends only on the last one, and expires 365 days after it whatever the old lifetime was |
| VirtualKeys.KeyStore.Create | modules/auth/service.py:547-608 | tenant scoping, expiry, the granted model list, and refusal without a tenant |
| VirtualKeys.KeyStore.Rotate | modules/auth/service.py:686-723 | the old key is revoked and its successor grants the same models for 365 days |
| QuotaCounters.CurrentReadIsExact | core/redis.py:149-169 | a counter of the current day or month is never lost to its expiry and equals the sum of its increments since its last reset |
| QuotaCounters.IncrementKeepsExact | core/redis.py:107-115 | incrementing and refreshing both counters keeps every key exact |
| QuotaCounters.ResetKeepsExact | core/redis.py:177-187 | deleting the current keys restarts exactly the current sums |
| QuotaCounters.DailyAtMostMonthly | core/redis.py:85-92 | with non-negative increments a day's usage never exceeds its month's |
| QuotaCounters.WholeSums | core/redis.py:164-167 | whole increments have whole sums, so the integer conversion loses nothing |
| QuotaCounters.SumIsSpent | core/redis.py:76-82 | the sum kept for a period is what was spent at instants of the same day, or the same month, since the last reset there |
| QuotaCounters.BumpedUntil | core/redis.py:107-113 | an incremented counter is readable for 25 hours, a monthly one for 35 days, and no other is affected |
| QuotaCounters.UtcCalendarIsValid | core/redis.py:76-77 | 24-hour days grouped into months of at most 31 satisfy the calendar assumptions behind the 25-hour and 35-day lifetimes |
| QuotaCounters.Quota.IncrementUsage | core/redis.py:99-140 | the returned totals are the exact sums of the current day and month |
| QuotaCounters.Quota.GetCurrentUsage | core/redis.py:149-169 | the reported usage is the exact sum of increments since the last reset in the current day and month, and with non-negative increments no daily figure exceeds its monthly one |
| QuotaCounters.Quota.ResetTenantQuota | core/redis.py:177-187 | removes the tenant's four current keys only |
| ConfigRegistry.Validate | core/config_registry.py:207-236 | under a rule a value is accepted if and only if it converts to the default's type and compares as a number in the range or as not-a-number; each rejection names its reason |
| ConfigRegistry.AcceptedMayExceedMaximum | core/config_registry.py:187-188 | the stored, unconverted value can exceed the maximum |
| ConfigRegistry.AcceptedMayFallBelowMinimum | core/config_registry.py:138 | under the rule with minimum 0, -0.5 is accepted and stored |
| ConfigRegistry.NumberAcceptedIff | core/config_registry.py:213-234 | for every integer default, minimum and maximum: the exact interval of finite numbers accepted, open one unit beyond a bound on the side away from zero |
| ConfigRegistry.TextAcceptedIff | core/config_registry.py:213-236 | a text is accepted exactly when it parses to a number in the range or, for a float default, to not-a-number |
| ConfigRegistry.FloatAcceptedIff | core/config_registry.py:223-234 | for a float default, exactly the floats in the range and not-a-number are accepted |
| ConfigRegistry.ExactNumbersAreCompared | core/config_registry.py:213-236 | integers and booleans are compared as they are under any numeric default, finite floats under a float default |
| ConfigRegistry.FractionsAreTruncated | core/config_registry.py:213-236 | a fraction under an integer default is compared by the integer next to it towards zero |
| ConfigRegistry.OthersAreRefused | core/config_registry.py:215-221 | unparsable texts, null and tables are of the wrong type; infinities lie outside or raise when cut to an integer |
| ConfigRegistry.StoredAsCheckedIff | core/config_registry.py:187-188 | for every accepted value under a rule: it is stored as it was checked if and only if it already has the default's type |
| ConfigRegistry.SameAmountIff | core/config_registry.py:187-188 | for every accepted value under a rule: it counts as the number that was checked if and only if it is neither a text nor a fraction under an integer default |
| ConfigRegistry.AcceptedMayBeText | core/config_registry.py:187-188 | an instance: the batch size "500" is accepted and stored as text |
| ConfigRegistry.RetainedPartRewinds | core/config_registry.py:198-200 | any retained suffix of the log chains by itself, and undoing it recovers the value before its oldest entry |
| ConfigRegistry.NeighboursLink | core/config_registry.py:187-197 | the new value of an entry is the old value of the key's next entry, and the last one is the effective value |
| ConfigRegistry.Registry.Get | core/config_registry.py:150-168 | without an environment variable a configured key answers with what its whole change history leads to, which is the new value of its newest entry in the retained log; an unconfigured one with the fallback; an override answers as it was checked exactly when it has the default's type |
| ConfigRegistry.Registry.GetAll | core/config_registry.py:238-242 | every configured key with its effective value |
| ConfigRegistry.Registry.Set | core/config_registry.py:170-205 | rejection changes nothing; acceptance stores and logs, the log keeping exactly its newest 100 entries; what is stored is what was checked exactly for values of the default's type |
| ConfigRegistry.Registry.ResetKey | core/config_registry.py:252-263 | removes an override and logs it; the log never exceeds 100 plus the number of keys ever overridden |
| ConfigRegistry.Registry.RetainedLogRewinds | core/config_registry.py:248-250 | in every valid registry the retained log chains up to the effective value and rewinds correctly |
| Forecast.FirstCrossing | simulator/data_generator.py:373-374 | the least day in the horizon on which the cumulative cost reaches the limit, none exactly when there is no such day |
| Forecast.GenerateForecasts | simulator/data_generator.py:333-387 | the loop emits the three scenario records per day, costs rounded to eight places, and reports exactly that first day |
| Forecast.ScenarioTokens | simulator/data_generator.py:346-366 | three records a day, pessimistic first, that scale the seasonal trend by 1.3, 1 and 0.75 |
| Forecast.WeekdayTable | simulator/data_generator.py:324-337 | the seven multipliers from Monday to Sunday, the same every week |
| Forecast.TrendGainsWeekly | simulator/data_generator.py:340-343 | the trend starts at the mean and gains the growth percentage of the mean every seven days |
| Forecast.ExhaustionIsMonotone | simulator/data_generator.py:340-385 | raising growth never postpones exhaustion, raising the budget never brings it forward |
| Forecast.ScenarioCosts | simulator/data_generator.py:346-371 | a record's cost is the likely cost scaled by the squared scenario factor, within the rounding to eight places |
| Forecast.LikelyRowsTrackRisk | simulator/data_generator.py:360-371 | the likely records of a horizon add up to what the risk accumulates, within half a rounding unit for each day |
| Billing.GroupByModel | simulator/data_generator.py:476-483 | the dictionary loop yields each model's usage, in order of first call |
| Billing.GroupingConserves | simulator/data_generator.py:476-483 | per-model tokens, calls and costs add up to those of all calls |
| Billing.SplitOf | simulator/data_generator.py:406-420 | used plus overage is the total on a forfait, overage only once it is used up and charged per thousand tokens on top of the base fee; otherwise the raw cost |
| Billing.GenerateBilling | simulator/data_generator.py:389-523 | the invoice and its lines in order |
| Billing.Sums | simulator/data_generator.py:400-404 | one pass gives the tokens, input, output and cost of all calls |
| Billing.LinesMatchInvoice | simulator/data_generator.py:442-523 | usage lines carry the invoice's tokens and calls, and the billable lines differ from the rounded total by at most (lines + 1) half units |
| Rounding.Round4 | simulator/data_generator.py:437-444 | rounding to four places errs by at most 0.00005 |
| Rounding.Round4IsNearest | simulator/data_generator.py:437-444 | the result is the one whole number of ten-thousandths nearest to the argument, the even one of two |
| Rounding.Round8 | simulator/data_generator.py:360 | rounding to eight places errs by at most 0.000000005 |
| Rounding.Round8IsNearest | simulator/data_generator.py:360 | the same for hundred-millionths |

## Left out

- HTTP routing, request schemas, database mappings, migrations, settings, logging, client-address parsing from headers.
- Failures of Redis, the database and JSON decoding; the token blacklist is always available.
- Each operation reads the clock once, and runs atomically except for the read and insert of a prompt version. Two
  processes rotating the same refresh token at the same moment are not modelled.
- Token signatures, password and key hashing and fresh identifiers: a signed token is one that was issued, new identifiers
  are parameters. The embedding hash is any function, collisions included.
- Rendering arguments are given as the text they convert to.
- Embedding computation: embeddings are given vectors of reals. The similarity of vectors of unequal length is that of the
  plain-Python fallback, which cuts to the shorter one.
- A non-positive cache lifetime, which Redis itself rejects; budgets of zero and negative fees, which no contract has.
- An absent tenant of a virtual key is the empty string.
- Store keys are tuples of their parts instead of colon-separated strings.
- Character classes are those of ASCII; letters and blanks beyond it are not classified.
- Floating-point rounding and overflow: amounts, times and scores are reals, and only configuration values can be infinite or
  not-a-number.
- Prompt columns that updates treat like the system message (description, model, limits, tags), the slug and change summary,
  and timestamps.
- The registry's table of defaults and ranges is a parameter; environment values arrive already converted, and the parsing
  of numbers from text is an arbitrary function. Conversion to non-numeric types, for which the registry has no rules.
- Verification and budget updates of virtual keys; API keys.
- Confidence intervals (square roots), random call generation, unit prices, report texts and invoice status.
- Billing, gateway, governance, detection and forecasting services are not part of this model.
- `core/event_bus.py`, `core/observability.py`, `core/validation.py` and the plain response cache: only easy members.
