# spring-redisson-sample in Dafny

A Dafny model of the parts of the sample service that have logic:

- **SensitiveDataFilter.filterSensitiveData.** The argument redaction the logging aspect applies.
  - There are three `replaceAll` passes, for `password`, `secret` and `token` in that order. Each pass works on the previous pass's output.
  - Each pass uses the expression `(?i)("?KEY"?\s*[:=]\s*)(".*?"|[^,}\]]+)` and the replacement `$1***`.
  - The expression is written as a declarative grammar (module `Pattern`). It covers group 1, the two alternatives of group 2, and the match a backtracking matcher prefers.
  - A deterministic matcher (module `Matcher`) is proved to report exactly that match at every position (`MatchAtSpec`).
  - Java's find/appendReplacement scan is modelled on top (module `SensitiveDataFilter`), along with the loop over the keys.
  - Worked inputs are proved in module `RedactionExamples`.
- **RedisService.** The create, read, update and delete operations on the Redis hash `userCache`.
  - The hash is a class holding a `map<string, string>` field.
  - Its map-wide expiry is a ghost field.
- **LoggingAspect.logAround.** The around advice.
  - Its steps are resolving the servlet request, the client IP fallback, classifying the target, the two ThreadContext puts, the one log line with the redacted `Arrays.toString` of the arguments, `proceed`, and `clearMap` after a normal return.
  - The advice is a function (`Advice`). A method on a class whose fields are the logging context and the log is proved to do exactly what that function says (`Aspect.LogAround`).

The Java literal at `SensitiveDataFilter.java` line 10 has garbled escapes: `\\"` ends the string early and `\]` is not a Java escape. As it stands it does not compile. The model uses the evident intended expression above.

The code does not clear the logging context when the wrapped call fails, because there is no `finally`; the model follows the code (`LoggingAspect.OutcomePassesThrough`).

Regular-expression semantics follow `java.util.regex` without `UNICODE_CASE` and without `DOTALL`:

- `\s` is `[ \t\n\x0B\f\r]`.
- `.` refuses `\n`, `\r`, U+0085, U+2028 and U+2029.
- `(?i)` folds ASCII letters only.
- The key is not anchored at a word boundary, so `mytoken=1` is redacted too.

The only backtracking that changes a result is the greedy `\s*` after the separator: when no value follows the longest white-space run, it gives back one white-space character, and that character becomes the value. So `password:  ,` becomes `password: ***,`.

## Model

| member | source | states |
|---|---|---|
| `SensitiveDataFilter.FilterSensitiveData` | src/main/java/br/com/example/sample/log/SensitiveDataFilter.java:7-12 | the loop's result is the password pass, then the secret pass on its output, then the token pass on that |
| `SensitiveDataFilter.FilterIsThreePasses` | src/main/java/br/com/example/sample/log/SensitiveDataFilter.java:5-11 | applying the key list `password, secret, token` in order is the composition of the three passes |
| `SensitiveDataFilter.NextMatch` | src/main/java/br/com/example/sample/log/SensitiveDataFilter.java:10 | the scan's find reports the leftmost position at or after `from` where the matcher matches, nothing matches before it, and when it reports nothing, nothing matches anywhere after `from` |
| `SensitiveDataFilter.Redact` | src/main/java/br/com/example/sample/log/SensitiveDataFilter.java:10 | one `replaceAll` scan from `from` (find, appendReplacement with `$1***`, appendTail): with no match the rest is copied, otherwise the text up to the end of group 1 of the leftmost match is copied and `***` follows; characterised in full by `ReplaceAllLeftmost` and `ReplaceAllWithoutMatch` |
| `SensitiveDataFilter.ReplaceAllLeftmost` | src/main/java/br/com/example/sample/log/SensitiveDataFilter.java:10 | when `p` is the leftmost start of a match and `(g, e)` is the preferred match there, replaceAll copies the input up to `g`, including group 1 verbatim, writes `***` for group 2, and continues after `e` |
| `SensitiveDataFilter.ReplaceAllWithoutMatch` | src/main/java/br/com/example/sample/log/SensitiveDataFilter.java:10 | where the expression matches nowhere from `from` on, replaceAll copies the rest unchanged |
| `SensitiveDataFilter.RedactAtLeftmostMatch` | src/main/java/br/com/example/sample/log/SensitiveDataFilter.java:10 | the same step in terms of the matcher: text before the leftmost match is copied, its value masked, and the scan resumes after the value, so every later non-overlapping match is redacted too; an occurrence that starts inside the masked value is swallowed into it |
| `SensitiveDataFilter.FilterWithoutKeys` | src/main/java/br/com/example/sample/log/SensitiveDataFilter.java:7-12 | an input in which no key (in any case) is followed by an optional quote, white space and `:` or `=` comes back unchanged |
| `SensitiveDataFilter.RedactAllWithoutKey` | src/main/java/br/com/example/sample/log/SensitiveDataFilter.java:10 | a single pass changes nothing when its key is never followed by a separator |
| `SensitiveDataFilter.FilterWithoutFirstLetters` | src/main/java/br/com/example/sample/log/SensitiveDataFilter.java:7-12 | an input without `p`, `s` or `t` in either case comes back unchanged |
| `SensitiveDataFilter.FilterIgnoresCase` | src/main/java/br/com/example/sample/log/SensitiveDataFilter.java:10 | inputs that differ only in the case of ASCII letters are redacted at the same places, so the outputs again differ only in letter case |
| `Matcher.MatchAtSpec` | src/main/java/br/com/example/sample/log/SensitiveDataFilter.java:10 | the matcher reports no match at `p` exactly when the expression does not match there, and reports `(g, e)` exactly when that is the preferred match at `p` |
| `Matcher.MatchAt` | src/main/java/br/com/example/sample/log/SensitiveDataFilter.java:10 | the expression's match starting exactly at `p`, as the end of group 1 and the end of the value, both after `p` and within the input; characterised by `MatchAtSpec`, `MatchAtPreferred` and `MatchAtNoneExactly` |
| `Matcher.MatchAtPreferred` | src/main/java/br/com/example/sample/log/SensitiveDataFilter.java:10 | a reported match is a match of the expression with the longest group 1; at that split, a quoted value is the shortest quoted run, and a plain value is reported only when no quoted run starts there, and it is the longest plain run |
| `Matcher.MatchAtNoneExactly` | src/main/java/br/com/example/sample/log/SensitiveDataFilter.java:10 | the matcher reports nothing at `p` if and only if group 1 followed by group 2 matches nowhere starting at `p` |
| `Matcher.Group1Exactly` | src/main/java/br/com/example/sample/log/SensitiveDataFilter.java:10 | `"?KEY"?\s*[:=]\s*` matches `s[p..g]` if and only if a separator is found after the key and `g` lies inside the white space after it |
| `Matcher.ValueEndSpec` | src/main/java/br/com/example/sample/log/SensitiveDataFilter.java:10 | the value found at `d` matches group 2; no value is found exactly when group 2 cannot match at `d`; a quoted value is the shortest quoted run; otherwise no quoted run exists and the plain run is the longest |
| `Matcher.SkipSpacesSpec` | src/main/java/br/com/example/sample/log/SensitiveDataFilter.java:10 | the greedy `\s*` covers only white space and stops at the end or at a character that is not white space |
| `Matcher.ClosingQuoteSpec` | src/main/java/br/com/example/sample/log/SensitiveDataFilter.java:10 | the lazy `.*?"` stops at the first `"` with no line terminator before it; when it fails, every later `"` has a line terminator before it |
| `Matcher.PlainEndSpec` | src/main/java/br/com/example/sample/log/SensitiveDataFilter.java:10 | `[^,}\]]+` covers only characters other than `,`, `}` and `]` and stops at the end or at one of them |
| `Pattern.ToLowerAscii` | src/main/java/br/com/example/sample/log/SensitiveDataFilter.java:10 | `(?i)` folding maps each upper-case ASCII letter to its lower-case letter (32 code points up), leaves lower-case letters as they are, and leaves every other character as it is |
| `RedactionExamples.QuotedPassword` | src/main/java/br/com/example/sample/log/SensitiveDataFilter.java:10 | `password: "abc123", name: "bob"` becomes `password: ***, name: "bob"` |
| `RedactionExamples.TokenInAnyCase` | src/main/java/br/com/example/sample/log/SensitiveDataFilter.java:10 | `Token=xyz` and `TOKEN=xyz` become `Token=***` and `TOKEN=***` |
| `RedactionExamples.TwoKeysBothMasked` | src/main/java/br/com/example/sample/log/SensitiveDataFilter.java:7-12 | in `[secret=a, token=b]` both values are masked, each by its own pass |
| `RedactionExamples.RepeatedKeyMaskedTwice` | src/main/java/br/com/example/sample/log/SensitiveDataFilter.java:10 | in `token=a, token=b` both occurrences are masked |
| `RedactionExamples.BlankValueGivesBackSpace` | src/main/java/br/com/example/sample/log/SensitiveDataFilter.java:10 | `password:  ,` becomes `password: ***,`: the last space is given back and masked |
| `RedactionExamples.FilterNotIdempotent` | src/main/java/br/com/example/sample/log/SensitiveDataFilter.java:7-12 | filtering `password="a"b` twice gives a different result from filtering it once |
| `RedisService.UserCache.constructor` | src/main/java/br/com/example/sample/service/RedisService.java:17 | the `userCache` hash starts empty and without an expiry |
| `RedisService.Lookup` | src/main/java/br/com/example/sample/service/RedisService.java:29 | `map.get`: the stored name exactly when the id is present, and null otherwise |
| `RedisService.Expire` | src/main/java/br/com/example/sample/service/RedisService.java:22 | `map.expire`: a hash with an entry gets the requested expiry, and on an empty hash, which does not exist in Redis, the expiry stays as it was; the Finding's lemmas `FirstCreateNeverExpires` and `StoreThenExpire` rest on it |
| `RedisService.UserCache.CreateUser` | src/main/java/br/com/example/sample/service/RedisService.java:20-24 | the id maps to the new name, overwriting any earlier one; every other entry is unchanged; the expiry becomes 10 minutes when the hash already had an entry and is unchanged otherwise |
| `RedisService.UserCache.GetUser` | src/main/java/br/com/example/sample/service/RedisService.java:27-30 | returns the stored name exactly when the id is present and null otherwise; nothing changes |
| `RedisService.UserCache.UpdateUser` | src/main/java/br/com/example/sample/service/RedisService.java:33-38 | a present id gets the new name; an absent id is not inserted and the map is unchanged; the expiry is unchanged |
| `RedisService.UserCache.DeleteUser` | src/main/java/br/com/example/sample/service/RedisService.java:41-44 | the id is removed and every other entry stays; an absent id changes nothing; removing the last entry drops the expiry with the hash |
| `RedisService.ReadAfterStore` | src/main/java/br/com/example/sample/service/RedisService.java:20-30 | after a store, the id reads back the stored name and every other id reads as before |
| `RedisService.ReadAfterRemove` | src/main/java/br/com/example/sample/service/RedisService.java:27-44 | after a removal, the id reads as null and every other id reads as before |
| `RedisService.FirstCreateNeverExpires` | src/main/java/br/com/example/sample/service/RedisService.java:22-23 | createUser on an empty cache stores an entry but sets no expiry |
| `RedisService.UserCache.CreateUserExpiring` | src/main/java/br/com/example/sample/service/RedisService.java:20-24 | with the entry stored before the expiry is requested, the hash always ends with the 10-minute expiry |
| `RedisService.StoreThenExpire` | src/main/java/br/com/example/sample/service/RedisService.java:22-23 | requesting the expiry after a store always sets it |
| `RedisService.CrudScenario` | src/main/java/br/com/example/sample/service/RedisService.java:20-44 | with the program's `createUser` on a fresh cache: `u1 -> Alice` reads back `Alice` but has no expiry; after the delete `u1` reads as null; updating the absent `u1` does not bring it back |
| `RedisService.CorrectedCreateScenario` | src/main/java/br/com/example/sample/service/RedisService.java:20-30 | with the corrected create on a fresh cache: `u1 -> Alice` reads back `Alice` and the hash has the 10-minute expiry |
| `LoggingAspect.Aspect.LogAround` | src/main/java/br/com/example/sample/log/LoggingAspect.java:32-55 | the advice's outcome and the resulting context and log are exactly those given by `Advice` from the state before the call |
| `LoggingAspect.Advice` | src/main/java/br/com/example/sample/log/LoggingAspect.java:32-55 | logAround as a function of the context and log before it: a failure to resolve the request or a null target throws with the state unchanged, and after a normal return the context is empty; characterised by `FailsBeforeProceed`, `WrappedCallSees` and `OutcomePassesThrough` |
| `LoggingAspect.ResolveRequest` | src/main/java/br/com/example/sample/log/LoggingAspect.java:33 | null attributes raise a NullPointerException, attributes of another kind a ClassCastException, and servlet attributes give their request, which may be null |
| `LoggingAspect.ClientIp` | src/main/java/br/com/example/sample/log/LoggingAspect.java:34 | the request's remote address, or `N/A` without a request |
| `LoggingAspect.ArraysToString` | src/main/java/br/com/example/sample/log/LoggingAspect.java:42 | `Arrays.toString`: the elements joined by `, ` between `[` and `]`; the shapes are shown by `ArgsRendering` |
| `LoggingAspect.LogLine` | src/main/java/br/com/example/sample/log/LoggingAspect.java:44-49 | the formatted message: it opens with `[` and the class type, ends with the redacted arguments, and adds exactly the 27 characters of the format's fixed text |
| `LoggingAspect.FailsBeforeProceed` | src/main/java/br/com/example/sample/log/LoggingAspect.java:33-36 | null request attributes raise a NullPointerException, non-servlet attributes a ClassCastException, and a null target a NullPointerException, each before anything is put, logged or run |
| `LoggingAspect.WrappedCallSees` | src/main/java/br/com/example/sample/log/LoggingAspect.java:34-49 | the wrapped call runs with `clientIP` set to the remote address (or `N/A` without a request) and `classType` set to the classification, with every other context entry as before and exactly one new log line carrying the redacted arguments |
| `LoggingAspect.OutcomePassesThrough` | src/main/java/br/com/example/sample/log/LoggingAspect.java:33-54 | with servlet request attributes and a target, whatever the request (a null request is not a failure), the wrapped call's value or throwable is the advice's outcome unchanged; after a return the whole context is empty; after a failure the context is what the call left |
| `LoggingAspect.ClassType` | src/main/java/br/com/example/sample/log/LoggingAspect.java:36 | the class type is `Controller` exactly when the simple class name contains `Controller`, and otherwise `Service` |
| `LoggingAspect.IndexOf` | src/main/java/br/com/example/sample/log/LoggingAspect.java:36 | `indexOf` reports the first occurrence at or after `from`, and nothing only when there is none |
| `LoggingAspect.ArgsRendering` | src/main/java/br/com/example/sample/log/LoggingAspect.java:42 | `Arrays.toString` renders `[]`, `[u1]` and `[u1, Alice]` |
| `LoggingAspect.ArgsLoggedVerbatim` | src/main/java/br/com/example/sample/log/LoggingAspect.java:42 | an argument list in which no sensitive key is followed by a separator is logged exactly as rendered |
| `LoggingAspect.CreateUserCallLogged` | src/main/java/br/com/example/sample/log/LoggingAspect.java:36-49 | a `createUser("u1", "Alice")` call on `UserController` from `127.0.0.1` logs one line with class type `Controller` and arguments `[u1, Alice]` |

## Findings

| source | as written | input that shows it | evidently intended | confidence | as-written member | corrected member |
|---|---|---|---|---|---|---|
| src/main/java/br/com/example/sample/service/RedisService.java:22-23 | `map.expire(...)` runs before `map.put(...)`. Redis EXPIRE does nothing on a key that does not exist, and an empty hash does not exist. | `createUser("u1", "Alice")` on an empty cache, or on one whose hash has expired, stores `u1` with no expiry. | Every create leaves the hash with the 10-minute expiry: put first, then expire. | medium: relies on Redisson's `RMap.expire` issuing EXPIRE on the hash key; not executed | `RedisService.UserCache.CreateUser`, `RedisService.FirstCreateNeverExpires`, `RedisService.CrudScenario` | `RedisService.UserCache.CreateUserExpiring`, `RedisService.StoreThenExpire`, `RedisService.CorrectedCreateScenario` |

## Left out

- The AspectJ pointcuts (LoggingAspect.java lines 23-29) and weaving: which calls are intercepted is not modelled. The `execution(* com.example..service..*(..))` pointcut does not name the `br.com.example` packages, so service calls are likely not intercepted at all.
- RedissonConfig.java: client bootstrap only. As written it declares `redissonClient` twice and uses the undeclared `Redisson` and `RedisConfig`.
- UserController.java: route annotations that delegate to RedisService and return constant strings.
- Redis network I/O, the passage of time and real expiry. The expiry is a ghost field holding the last expiry set, in minutes, and no entry ever expires in the model.
- Log4j: levels, appenders and the way `{}` placeholders are rendered. The log is the sequence of formatted lines, and every line is emitted.
- Thread-locality of ThreadContext and concurrent calls: the context is one map.
- `RedisService.UserCache.UpdateUser`: `containsKey` and `put` (RedisService.java lines 35-36) are two Redis calls, and the model treats them as one atomic step. A concurrent delete, or the hash expiring between them, re-inserts the id with no expiry; the model does not capture that.
- The wrapped call (`proceed`) is an arbitrary function from the context and log it starts with to an outcome and the context and log it leaves. What it does inside, including nested intercepted calls, is not modelled.
- Argument rendering: arguments are passed in already rendered by `String.valueOf`, as `Arrays.toString` does. `getArgs()` never returns null.
- Strings are sequences of Unicode scalar values, not UTF-16 code units. Surrogate pairs are not modelled.
- General `java.util.regex` semantics: only the one expression of the filter is modelled.
- The filter is not claimed to be idempotent, and `RedactionExamples.FilterNotIdempotent` shows that it is not.
