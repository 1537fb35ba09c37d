# bbs-go request-scoped loading and user rules, in Dafny

This project models the core of the bbs-go forum backend (Go) and proves
properties of the model.

**The deferred batch loader of the GraphQL layer (`LazyQuery`).** During one GraphQL query,
resolvers register the ids of related users with the loader (`Set`). A later
`Get` fetches every registered id still pending, in a single call of the batch
function, and answers from the loader's cache.

- `LazyQueries` gives a value model, `LoaderState` with `Registered` and `Flushed`.
- The class `LazyQuery` has the fields `ids`, `noQueriedIds` and `cache`. Its methods are proved to perform that model.
- Over any sequence of registrations and lookups, the proofs show:
  - the loader's invariant holds;
  - registering is idempotent;
  - a key is fetched at most once, and only registered keys are fetched;
  - a lookup keeps the order of the requested ids.

**The request scope (`Graph`).** The root value the resolvers share is a map
from strings to values:
- the loader under "user-cache";
- the content-type flag under "topic-content-type";
- one snapshot of a topic's comments, keyed by comment id, under "comments-<topic id>".

Modelled on top of it:
- the helpers `getSharedData`, `queryDataFromCache` and `setKeysToCache`;
- the resolvers that write to the scope (topic `comments`, `recentlyTopics`);
- the resolvers that read from it (comment quote, the `user` fields, `chooseContentType`);
- the page sizes of `topics` and `recentlyTopics`.

**User service rules (`UserService`).**
- `GetRoles`: split on commas, deduplicate keeping first occurrences.
- `Forbidden`: the end time of a posting ban.
- `CheckPostStatus`, `SignIn` and `SignUp`: the checks in their order.

The database lookups, the validators, the clock and password hashing are
parameters.

**Avatar colours (`Avatar`).**
- `colorToRGB`, including `strconv.ParseInt(s, 16, 32)` with its syntax and range errors. The digits are read by a 64-bit `ParseUint`; the 32-bit signed limit applies only afterwards.
- The decoding of the 32-entry foreground palette in `init`.

**Topic-node role filter (`TopicNodeRepository`).** The regular expression
`FindByRoles` builds from a comma-separated role list.

**Shared operators.**
- `Linq` holds the go-linq operators the code uses.
- `Strings` holds the `strings`/`strconv` functions it uses: `Split`, `Join`, `ReplaceAll`, `TrimSpace` over Unicode white space, and decimal formatting.

**Behaviour worth noting:**
- `Set` marks a key pending when it is not in `ids` (every key ever registered), not when it is missing from the cache. A key that was fetched and not found is therefore never fetched again in the same request: absence is cached (`LazyQueries.FetchedNeverPendingAgain`).
- `Get` answers a slice in the order of the requested ids, with repeats.
- The batch function has no error result, so a lookup has no failure path.

## Model

| member | source | states |
|---|---|---|
| Linq.Distinct | server/graphql/topic.go:104-105 | go-linq `Distinct`: a duplicate-free list with exactly the input's elements, no longer than the input |
| Linq.Except | server/graphql/topic.go:100 | go-linq `Except`: exactly the elements of the first list that are not in the second, each kept as often as it occurs there |
| Linq.Union | server/graphql/topic.go:101-103 | go-linq `Union`: duplicate-free, exactly the elements of either list, starting with the distinct elements of the first list in their order |
| Linq.DistinctPrefix | server/graphql/topic.go:101-103 | appending elements leaves the `Distinct` of the first part as a prefix |
| Linq.Intersect | server/graphql/topic.go:112 | go-linq `Intersect`: duplicate-free, exactly the elements in both lists |
| Linq.DistinctAppendFresh | server/graphql/topic.go:101-105 | the union of a duplicate-free list with new elements keeps the list as a prefix and appends the new elements once each |
| Linq.DistinctIdempotent | server/graphql/topic.go:104-105 | the second `Distinct` of `Set` changes nothing |
| Linq.DistinctKeepsFirstOccurrenceOrder | server/services/user_service.go:613-614 | `Distinct` keeps elements in the order of their first occurrence |
| Linq.FlattenMember | server/graphql/topic.go:116 | an element of the concatenated batches comes from one batch, and back |
| Linq.ExceptNothing | server/graphql/topic.go:100 | `Except` of a list against the empty list returns that list unchanged |
| Strings.Split | server/services/user_service.go:607-608 | `strings.Split`: one more piece than separators, no piece contains the separator |
| Strings.JoinSplit | server/services/user_service.go:607-608 | joining the pieces of a split with the separator gives the string back |
| Strings.SplitJoin | server/services/user_service.go:607-608 | splitting a join of separator-free pieces gives the pieces back |
| Strings.ReplaceAllIsSplitJoin | server/repositories/topic_node_repository.go:93 | `strings.ReplaceAll` of one character equals split at it and join with the replacement |
| Strings.CountReplaceAll | server/repositories/topic_node_repository.go:93 | occurrences of another character after the replacement: those of the input plus one set per replaced character |
| Strings.TrimLeft | server/services/user_service.go:158-160 | a suffix of the input, not starting with white space, with only white space removed |
| Strings.TrimRight | server/services/user_service.go:158-160 | a prefix of the input, not ending with white space, with only white space removed |
| Strings.TrimSpace | server/services/user_service.go:158-160 | `strings.TrimSpace` returns a slice of its input cut only at white space and neither starting nor ending with white space |
| Strings.TrimSpaceIdempotent | server/services/user_service.go:158-160 | trimming twice is trimming once |
| Strings.Digits | server/graphql/topic.go:57 | decimal digits of a natural number: at least one, all digits, one digit exactly below ten |
| Strings.DigitsValue | server/graphql/topic.go:57 | the digits of a natural number denote that number |
| Strings.DigitsInjective | server/graphql/topic.go:57 | different natural numbers have different digits |
| Strings.DigitChar | server/graphql/topic.go:57 | a digit character denotes its digit |
| Strings.ReplaceAll | server/repositories/topic_node_repository.go:93 | `strings.ReplaceAll`: every character of the result is a kept input character or comes from the replacement, and every input character other than the one replaced is kept |
| Strings.Decimal | server/graphql/topic.go:57 | `strconv.Itoa`: a leading '-' exactly for negative numbers, followed by digits that denote the magnitude |
| Strings.DecimalInjective | server/graphql/topic.go:57 | different ids print differently |
| LazyQueries.NewKeys | server/graphql/topic.go:98-100 | the keys of a `Set` call not yet known, once each |
| LazyQueries.Registered | server/graphql/topic.go:97-106 | after `Set` the known keys are the old ones plus the given ones, the pending keys gain exactly the unknown given keys, old lists stay prefixes, cache untouched |
| LazyQueries.Flushed | server/graphql/topic.go:108-121 | `Get` calls the batch function with the whole pending list exactly when a requested key is pending, then clears pending and merges the returned entries (returned entries win, other keys keep their value); otherwise nothing changes |
| LazyQueries.Lookup | server/graphql/topic.go:122-127 | the answer of `Get` has at most one entity per requested id |
| LazyQueries.EmptyInv | server/graphql/topic.go:136-144 | a new loader satisfies the invariant |
| LazyQueries.RegisteredInv | server/graphql/topic.go:97-106 | `Set` preserves the invariant: both lists duplicate-free, pending within known, known keys pending or fetched |
| LazyQueries.FlushedInv | server/graphql/topic.go:108-121 | `Get` preserves the invariant, with each key fetched at most once |
| LazyQueries.RegisterIdempotent | server/graphql/topic.go:97-106 | `Set(K); Set(K)` equals `Set(K)` |
| LazyQueries.RegisterKnownIsNoop | server/graphql/topic.go:98-105 | registering only known keys changes nothing, fetched or not, found or not |
| LazyQueries.FetchedNeverPendingAgain | server/graphql/topic.go:97-117 | a fetched key never becomes pending again |
| LazyQueries.ResolveFetchesPendingKey | server/graphql/topic.go:112-127 | a requested pending key is fetched by that lookup and answered with what the batch function found |
| LazyQueries.ResolveWithoutPendingIsNoop | server/graphql/topic.go:112-113 | a lookup of no ids, or of ids none of which is pending, changes nothing |
| LazyQueries.LookupSingleton | server/graphql/topic.go:64-77 | looking up one id answers its entity or nothing |
| LazyQueries.LookupAppend | server/graphql/topic.go:122-127 | the answer keeps the order of the requested ids |
| LazyQueries.LookupAllCached | server/graphql/topic.go:122-127 | with every id cached, one entity per id in order, duplicates repeated |
| LazyQueries.LookupFromCache | server/graphql/topic.go:122-127 | every answered entity is the cached entity of a requested id |
| LazyQueries.RunInv | server/graphql/topic.go:97-127 | any sequence of `Set` and `Get` keeps the invariant and knows only registered keys |
| LazyQueries.AtMostOnceFetch | server/graphql/topic.go:97-117 | over the life of a loader each key goes to the batch function at most once, and only registered keys do |
| LazyQueries.BatchScenario | server/graphql/topic.go:97-127 | registering 1,2,2,3 and looking up 1,3 fetches [1,2,3] once and answers both; a later lookup of 2 fetches nothing |
| LazyQueries.LazyQuery.constructor | server/graphql/topic.go:136-144 | `initLazyQuery`: empty lists and cache, the given batch function |
| LazyQueries.LazyQuery.Set | server/graphql/topic.go:97-106 | the linq formula of `Set` performs `Registered` and keeps the invariant |
| LazyQueries.LazyQuery.MergeIntoCache | server/graphql/topic.go:118-120 | the copy loop leaves the cache equal to the old cache overridden by the batch result |
| LazyQueries.LazyQuery.CachedEntities | server/graphql/topic.go:122-127 | the lookup loop answers `Lookup` of the cache: each requested id's cached entity, in order, skipping missing ones |
| LazyQueries.LazyQuery.Get | server/graphql/topic.go:108-129 | `Get` performs `Flushed`, keeps the invariant and returns `Lookup` of the requested ids |
| Graph.SharedKeyInjective | server/graphql/topic.go:57 | different parents get different scope keys |
| Graph.CommentsKeyIsNotReserved | server/graphql/topic.go:24-29 | a comment snapshot key is never "user-cache" or "topic-content-type" |
| Graph.GetSharedData | server/graphql/topic.go:53-62 | the entry under "<kind>-<id>" if present, nothing otherwise |
| Graph.SharedKeyShape | server/graphql/topic.go:57 | the key is the kind, a '-', and the id in decimal (with its sign), which reads back as the id |
| Graph.ContentTypeFlag | server/graphql/topic.go:42-43 | the stored content-type flag when there is one, 0 otherwise |
| Graph.ChooseContentType | server/graphql/topic.go:41-51 | content is rendered from Markdown exactly when the flag is 1; otherwise, including with no flag, it is returned as stored |
| Graph.QuotedComment | server/graphql/topic.go:239-256 | nothing when the quote id is 0; otherwise the snapshot entry of the comment's topic at the quote id, or nothing when either is missing |
| Graph.CommentsMapOf | server/graphql/topic.go:325-332 | the snapshot maps every comment's id to a comment of the list with that id |
| Graph.CommentsMapOfUnique | server/graphql/topic.go:325-332 | with distinct ids each id maps to its comment |
| Graph.CommentAuthors | server/graphql/topic.go:327-329 | one author id per comment, in order |
| Graph.TopicAuthors | server/graphql/topic.go:397-398 | one author id per topic, in order |
| Graph.QuoteFromSnapshot | server/graphql/topic.go:243-250 | after a topic's snapshot is stored, a quote in that topic resolves exactly when a comment has the quoted id, to that comment |
| Graph.SnapshotsAreIsolated | server/graphql/topic.go:333-335 | storing one topic's snapshot does not change quotes in another topic |
| Graph.UserBatch | server/graphql/topic.go:391-396 | the user batch function returns exactly the requested users the table has, as the table holds them |
| Graph.RecentPage | server/graphql/topic.go:385-388 | pages below 1 become 1, others are kept |
| Graph.TopicsPageSize | server/graphql/topic.go:359-363 | one topic exactly when `onlyLatest` is given and true, twenty otherwise |
| Graph.RequestScope.QueryDataFromCache | server/graphql/topic.go:64-77 | nothing when the key holds no loader; otherwise the loader performs `Get(id)` and the answer is its cached entity, if any; the scope is unchanged |
| Graph.RequestScope.SetKeysToCache | server/graphql/topic.go:79-86 | registers with the loader under the key if there is one; never creates one |
| Graph.RequestScope.ResolveUser | server/graphql/topic.go:226-236 | the `user` field is nil whenever no resolver of the request has stored a user loader; otherwise the loader performs `Get(id)` and the field is the cached user, if any |
| Graph.RequestScope.TopicComments | server/graphql/topic.go:317-341 | no comments: nil, nothing stored, nothing registered; otherwise the snapshot is stored under "comments-<topic id>" and every author is registered |
| Graph.RequestScope.RecentlyTopics | server/graphql/topic.go:383-402 | fetches page max(page,1) of ten, stores a new loader over the user table under "user-cache" with the topics' authors registered, and the content-type flag |
| UserService.RoleSegments | server/services/user_service.go:603-611 | an empty column gives nothing, a column with a comma its segments, any other column itself; no segment holds a comma |
| UserService.GetRoles | server/services/user_service.go:600-616 | the loop builds the segment list and returns it deduplicated: duplicate-free, with exactly the segments |
| UserService.RoleSegmentsOfNonEmpty | server/services/user_service.go:607-611 | a non-empty column contributes `strings.Split(role, ",")`, which joins back to the column |
| UserService.RoleListMember | server/services/user_service.go:602-612 | a role is listed exactly when it is a segment of some column |
| UserService.GetRolesResult | server/services/user_service.go:613-614 | the roles are distinct, comma-free, exactly the segments of the columns, in first-appearance order |
| UserService.Wrap64 | server/services/user_service.go:120 | int64 wrap-around: in range, congruent modulo 2^64, identity on int64 values |
| UserService.ForbiddenEndTime | server/services/user_service.go:116-123 | -1 days gives -1; positive days give the clock's timestamp after the wrapped duration; anything else is the error "禁言时间错误" |
| UserService.ForbiddenDaysInRange | server/services/user_service.go:120 | up to 106751 days the duration does not wrap |
| UserService.ForbiddenDaysOverflow | server/services/user_service.go:120 | 106752 days wrap to a negative duration |
| UserService.IsNotBlank | server/services/user_service.go:126 | a reason is not blank exactly when it holds a character that is not white space |
| UserService.Forbidden | server/services/user_service.go:115-133 | bad days: the error, no update, no log; otherwise no error, the end time is written, and a log entry with "禁言原因：" + reason (or nothing for a blank reason) follows exactly when the update succeeds |
| UserService.ForbiddenRejectsOnlyBadDays | server/services/user_service.go:116-133 | an error is returned exactly when nothing is written, exactly for days other than -1 and positive |
| UserService.CheckPostStatus | server/services/user_service.go:583-598 | no user: not logged in; then disabled, then banned, then observation period with the message naming the period, each only when the earlier checks pass; no error exactly when every check passes |
| UserService.ObservationMessage | server/services/user_service.go:595 | the observation message is the fixed prefix, the period in decimal, and the fixed suffix |
| UserService.ObservationMessageNamesPeriod | server/services/user_service.go:595 | different observation periods give different messages |
| UserService.DisabledTakesPrecedence | server/services/user_service.go:587-589 | a disabled account is reported disabled even when banned or under observation |
| UserService.FindAccount | server/services/user_service.go:243-247 | the account is looked up by email when the name passes the email validator, by username otherwise |
| UserService.SignIn | server/services/user_service.go:235-255 | empty name first, then empty password; the account is found by email or username; success exactly for an existing OK account with a matching password, which is returned; "密码错误" exactly for a wrong password on an OK account |
| UserService.SignInHidesDisabledAccounts | server/services/user_service.go:248-250 | a missing and a disabled account give the same error |
| UserService.NullIfEmpty | server/services/user_service.go:196-197 | empty names are stored as NULL |
| UserService.SignUpCheck | server/services/user_service.go:162-193 | passes exactly when every check passes, the username's only if given; the first failing check decides the error, in the order nickname, password, email required, email valid, email unused, username valid, username unused |
| UserService.Created | server/services/user_service.go:195-203 | the new record keeps the names, with an empty username or email stored as NULL, the encoded password and status OK |
| UserService.SignUp | server/services/user_service.go:157-223 | validation on the trimmed inputs decides the error; otherwise the transaction's error, or the new record with trimmed names, encoded password and status OK |
| UserService.SignUpWithoutUsername | server/services/user_service.go:185-193 | without a username the username validator and lookup are not consulted |
| UserService.SignUpIgnoresSurroundingSpace | server/services/user_service.go:158-160 | surrounding white space on username, email or nickname changes nothing |
| Avatar.HexValueFromGrows | server/common/avatar/avatar.go:68 | reading more digits never makes the value smaller |
| Avatar.HexDigit | server/common/avatar/avatar.go:68 | base-16 digits of either case have values 0 to 15 |
| Avatar.ScanHex | server/common/avatar/avatar.go:68 | the digit loop of the 64-bit `ParseUint` never yields less than what it started from or more than 2^64 - 1 |
| Avatar.ParseUint64Hex | server/common/avatar/avatar.go:68 | `ParseUint(s, 16, 64)`, run by `ParseInt` on the unsigned part, yields values from 0 to 2^64 - 1 |
| Avatar.ParseInt32Hex | server/common/avatar/avatar.go:68 | `ParseInt(s, 16, 32)` yields signed 32-bit values; an empty string is a syntax error |
| Avatar.ScanHexCorrect | server/common/avatar/avatar.go:68 | the digit loop succeeds exactly on digit strings whose value fits 64 bits and then yields that value; a syntax error means a non-digit |
| Avatar.ParseUint64HexCorrect | server/common/avatar/avatar.go:68 | the 64-bit `ParseUint` accepts exactly the non-empty numerals below 2^64 and reads them by their value |
| Avatar.ScanHexAppend | server/common/avatar/avatar.go:68 | once a prefix of digits is read within range, the loop carries on from its value |
| Avatar.NineDigits | server/common/avatar/avatar.go:68 | nine digits starting with 1 denote a value from 16^8 to below 16^9 |
| Avatar.SyntaxAfterDigits | server/common/avatar/avatar.go:67-71 | digits that fit 64 bits followed by a non-digit give a syntax error, whatever their value |
| Avatar.SyntaxAfterThirtyTwoBits | server/common/avatar/avatar.go:68-71 | "#100000000x" is a syntax error, since a 33-bit value still fits the 64-bit scan |
| Avatar.ThirtyThreeBitsIsRange | server/common/avatar/avatar.go:68-71 | "#100000000" is read in full and then fails the signed 32-bit limit: a range error |
| Avatar.HexValueFromAppend | server/common/avatar/avatar.go:73 | a numeral read in two parts continues the first part's value |
| Avatar.HexValueFromShift | server/common/avatar/avatar.go:73 | a value read so far is shifted by one digit per remaining digit |
| Avatar.HexValueBound | server/common/avatar/avatar.go:73 | k digits denote less than 16^k |
| Avatar.TrimHash | server/common/avatar/avatar.go:67 | `strings.TrimPrefix(s, "#")` removes exactly one leading '#' |
| Avatar.ColorToRGB | server/common/avatar/avatar.go:66-75 | an error exactly when the parse fails, with the parse's error; a colour always has alpha 255 |
| Avatar.ColorOfSixDigits | server/common/avatar/avatar.go:67-74 | "#RRGGBB" gives the bytes RR, GG, BB in order, with or without the '#' |
| Avatar.SixDigitValue | server/common/avatar/avatar.go:73 | six digits denote RR·2^16 + GG·2^8 + BB |
| Avatar.ByteExtraction | server/common/avatar/avatar.go:73-74 | the shifts and masks of `colorToRGB` take 0xRRGGBB apart |
| Avatar.OnlyOneHashStripped | server/common/avatar/avatar.go:67-71 | a second '#' is a syntax error |
| Avatar.MinusOneIsWhite | server/common/avatar/avatar.go:68-74 | the sign is accepted: "-1" gives all bytes 255 |
| Avatar.EightDigitsOverflow | server/common/avatar/avatar.go:68-71 | "#FFFFFFFF" overflows 32 signed bits: a range error |
| Avatar.PaletteEntryParses | server/common/avatar/avatar.go:19-28 | an entry "#FF" + four digits decodes with red 255 and alpha 255 |
| Avatar.AllPaletteEntries | server/common/avatar/avatar.go:19-28 | all 32 table entries have that shape |
| Avatar.InitFrontColors | server/common/avatar/avatar.go:33-37 | `init` collects 32 colours, the decoding of each table entry in order, all with red 255 and alpha 255 |
| TopicNodeRepository.RoleFilter | server/repositories/topic_node_repository.go:92-94 | the filter always starts with '(' and ends with ",)" |
| TopicNodeRepository.WithComma | server/repositories/topic_node_repository.go:93 | each role followed by a comma |
| TopicNodeRepository.RoleFilterIsAlternation | server/repositories/topic_node_repository.go:93-94 | the filter is the parenthesised alternation of the roles, each followed by a comma |
| TopicNodeRepository.JoinWithComma | server/repositories/topic_node_repository.go:93-94 | joining with ",|" and closing with "," is joining the comma-terminated roles with "|" |
| TopicNodeRepository.RoleFilterBars | server/repositories/topic_node_repository.go:93 | without '|' in the input there is one '|' per comma |
| TopicNodeRepository.RoleFilterSingleRole | server/repositories/topic_node_repository.go:93-94 | a comma-free list gives "(" + roles + ",)", and no roles give "(,)" |

## Left out

- Database access, the validators (`validate.IsPassword`, `IsEmail`, `IsUsername`), `simple.EncodePassword`/`ValidatePassword`, the clock and `SysConfigService` are parameters or inputs. So are the user model's `IsForbidden` and `InObservationPeriod`.
- The constants package is not part of this model. `StatusOk` = 0, `OpTypeForbidden` = "forbidden" and `EntityUser` = "user" are written out as bbs-go defines them; no proof depends on their values.
- `simple.IsNotBlank` is taken as "not empty after `strings.TrimSpace`", and `simple.SqlNullString` as NULL for the empty string. The `simple` library is not part of this model.
- UserService.SignUp: the id the database assigns, the avatar upload inside the transaction and the goroutine that records the sign-up source are not modelled; the transaction is one function that answers an error or none.
- UserService.Forbidden: the request passed to the operation log is not modelled. The log call itself is an effect the result names.
- The observation-period error's code and the codes of the other `CheckPostStatus` errors live in the common package, which is not part of this model; the errors are a datatype.
- Graph: the GraphQL schema wiring, argument decoding, and the field resolvers that only read a field (`id`, `title`, `like`, `link`, `avatar`, and `modelFieldResolver`, which uses reflection) are not modelled.
- Graph.ChooseContentType: Markdown rendering by lute is an abstract function.
- Graph.RequestScope.RecentlyTopics takes the content type after `cast.ToInt`: the enum value, and 0 for the default "MD" string. `cast.ToInt` and the database query are inputs.
- Graph: the root value is always a map here. The `RootValue` non-map branch of the helpers, and the panics of the unchecked type assertions, are excluded by the scope invariant (`Valid`: "user-cache" holds a loader) and by the preconditions of the helpers.
- The scope is a map to a closed set of values. Entries of other types that other code might store are not modelled.
- `Get`'s ToSlice into `need` (topic.go:114-115) has no effect and is left out. `Set`'s `ToSlice` writes into the backing array of the list being read. This is harmless because both lists are duplicate-free, and the model assigns new sequences.
- Concurrency: resolvers run sequentially in graphql-go here; the loader has no locking and none is modelled.
- Identicon image generation, PNG encoding and the default-avatar URL (avatar.go:38-64) are not modelled.
- `strconv.ParseInt` is modelled for a 64-bit platform, where its inner `ParseUint` reads 64 bits.
- Strings are sequences of characters, not UTF-8 bytes. Emptiness checks (`len(s) == 0`) and the ASCII-only digit scan of `ParseInt` agree under either view.
- The duplicate constant declarations and commented-out code in server/graphql/common.go are not modelled.
