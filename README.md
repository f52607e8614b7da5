# cogo runtime helpers, modelled in Dafny

cogo is a stackful-coroutine runtime for Rust. Coroutines run over
non-blocking I/O, several to a thread. This project models the
self-contained building blocks that the runtime and its standard-library
layer are made of:

- **Cookies** (`src/std/http/cookie.rs`): a port of Go's `net/http`
  cookie code. It covers:
  - the byte validators and the sanitiser;
  - `parse_cookie_value`;
  - the cookie-name token check;
  - the Domain-attribute checks;
  - the `Cookie` request-header reader `read_cookies`;
  - the serialiser `Cookie::string`.
- **ASCII trimming** (`src/std/net/textproto.rs`): `trim_string`.
- **The single-producer single-consumer queue** (`src/std/queue/spsc.rs`).
  Values are stored in linked blocks of `BLOCK_SIZE` slots, and two
  wrapping `usize` indices count the pushes and the pops.
- **The timer list** (`src/timeout_list.rs`). There is one FIFO list of
  timeouts per interval, and a binary heap holds the head of every
  non-empty list. `schedule_timer` pops every expired timeout, hands its
  data to a callback, and returns the delay to the next deadline.
- **The unsynchronised once-cell and lazy value**
  (`src/std/lazy/mod.rs`), plus the synchronised `try_insert`.
- **The poison flag** (`src/std/sync/poison.rs`) kept by the runtime's
  locks.

Each operation is a Dafny function when the source computes a value. It
is a method with loops and invariants, or a class whose methods update
its fields, when the source works step by step on mutable state. In
either case it is proved against a reference definition, and lemmas
state what the source promises about that definition.

Files, one module each:

- `wrappers.dfy`: the `Option` and `Result` types.
- `textproto.dfy`: `TextProto`.
- `cookie_syntax.dfy`: `CookieSyntax`.
- `cookie_domain.dfy`: `CookieDomain`.
- `cookie.dfy`: `Cookies`.
- `cookie_string.dfy`: `CookieText`.
- `timeout_time.dfy`: `TimeoutTime`.
- `timeout_list.dfy`: `TimeoutList`.
- `spsc.dfy`: `Spsc`.
- `lazy.dfy`: `OnceCells`.
- `poison.dfy`: `Poison`.

## Model

| member | source | states |
|---|---|---|
| TextProto.TrimString | src/std/net/textproto.rs:2-11 | The two deleting loops compute `Trimmed`: leading ASCII space is removed, then trailing ASCII space. |
| TextProto.TrimmedIsSlice | src/std/net/textproto.rs:2-11 | The result is a contiguous slice of the input, and everything cut on either side is ASCII space. |
| TextProto.TrimmedHasNoEdgeSpace | src/std/net/textproto.rs:2-11 | The result neither begins nor ends with ASCII space. |
| TextProto.TrimmedEmptyIff | src/std/net/textproto.rs:2-11 | The result is empty exactly when the input is all ASCII space, and the empty input counts as such. |
| TextProto.TrimmedIdentity | src/std/net/textproto.rs:2-11 | An input with no space at either edge is returned unchanged. |
| TextProto.TrimmedIdempotent | src/std/net/textproto.rs:2-11 | Trimming twice equals trimming once. |
| TextProto.IsAsciiSpace | src/std/net/textproto.rs:13-15 | A space byte is a control char or the space itself, and vertical tab and form feed are not space. |
| TextProto.OtherWhitespaceKept | src/std/net/textproto.rs:13-15 | Only space, tab, LF and CR count as space; vertical tab and form feed survive trimming. |
| CookieSyntax.ValidCookieValueByte | src/std/http/cookie.rs:431-433 | A valid value byte is exactly an RFC 6265 cookie-octet, a space or a comma. |
| CookieSyntax.ValidCookiePathByte | src/std/http/cookie.rs:571-573 | A valid path byte is exactly a char of RFC 6265 path-value: a CHAR that is neither a CTL nor `;`. |
| CookieSyntax.ValueByteIsPathByte | src/std/http/cookie.rs:571-573 | Every valid value byte is a valid path byte; the path additionally admits exactly DQUOTE and backslash. |
| CookieSyntax.SanitizeOrWarn | src/std/http/cookie.rs:435-456 | The check pass and the filtering pass together return the in-order subsequence of chars whose truncated byte is valid. |
| CookieSyntax.SanitizedOnlyValid | src/std/http/cookie.rs:448-455 | The sanitised text holds only valid bytes and is no longer than the input. |
| CookieSyntax.SanitizedKeepsAscii | src/std/http/cookie.rs:448-455 | An ASCII input sanitises to ASCII text. |
| CookieSyntax.SanitizedIdentity | src/std/http/cookie.rs:445-447 | The input comes back unchanged exactly when every byte is valid, in both directions. |
| CookieSyntax.SanitizedIdempotent | src/std/http/cookie.rs:435-456 | Sanitising twice equals sanitising once. |
| CookieSyntax.SanitizedAppend | src/std/http/cookie.rs:448-455 | Sanitising distributes over concatenation, so the kept chars stay in input order. |
| CookieSyntax.SanitizedCounts | src/std/http/cookie.rs:448-455 | A valid char is kept as often as it occurs, and an invalid char never. |
| CookieSyntax.SanitizePathKeepsExamples | src/std/http/cookie.rs:652-653 | The valid example paths of TestCookieSanitizePath come back unchanged. |
| CookieSyntax.SanitizePathDropsOne | src/std/http/cookie.rs:571-579 | One invalid char between two runs of valid path chars is dropped, and nothing else changes. |
| CookieSyntax.SanitizeCookieValue | src/std/http/cookie.rs:354-363 | The value is sanitised, then wrapped in DQUOTEs exactly when it is non-empty and holds a space or a comma. |
| CookieSyntax.SanitizedValueQuotedIff | src/std/http/cookie.rs:359-361 | The written value starts with DQUOTE exactly when the sanitised text is non-empty and holds a space or a comma. |
| CookieSyntax.SanitizeCookiePath | src/std/http/cookie.rs:577-579 | The result is the path sanitised with the path-byte validator. |
| CookieSyntax.ParseCookieValue | src/std/http/cookie.rs:557-569 | Quotes are stripped only when allowed, the text is longer than one byte and both ends are DQUOTE. Then the whole text is returned with `true`, or `""` with `false` at the first invalid byte. |
| CookieSyntax.ParsedCookieValueShape | src/std/http/cookie.rs:557-569 | A successful parse yields a slice of the input made of valid bytes with no DQUOTE; a failed one yields `""`. |
| CookieSyntax.TrimMatchesDropsAllQuotes | src/std/http/cookie.rs:560-562 | `trim_matches` removes every leading and trailing DQUOTE, not just one pair. |
| CookieSyntax.SanitizeThenParse | src/std/http/cookie.rs:557-569 | Round trip: the value `sanitize_cookie_value` writes parses back, quotes allowed, to the sanitised text. |
| CookieSyntax.IsTokenRune | src/std/http/cookie.rs:552-555 | A token rune is a visible ASCII char, `!` to `~`. |
| CookieSyntax.TokenRuneIsTchar | src/std/http/cookie.rs:470-555 | The token table and the `< 127` guard accept exactly the tchar set of section 3.2.6 of RFC 7230. |
| CookieSyntax.IndexFuncFirst | src/std/http/cookie.rs:463 | The index is -1 exactly when no char satisfies the predicate; otherwise it is the first char that does. |
| CookieSyntax.IsCookieNameValid | src/std/http/cookie.rs:459-464 | A name is valid exactly when it is non-empty and `index_func` finds no char that is not a token rune. |
| CookieSyntax.CookieNameValidIff | src/std/http/cookie.rs:459-464 | A name is valid exactly when it is non-empty and every char is a tchar. |
| CookieSyntax.CookieNameExamples | src/std/http/cookie.rs:627-629 | "Cookie-1" is a valid name and "" is not. |
| CookieSyntax.CookieNameHasNoDelimiters | src/std/http/cookie.rs:459-464 | A valid name contains no `=`, `;`, space, DQUOTE or comma. |
| CookieDomain.IsCookieDomainName | src/std/http/cookie.rs:368-417 | The single pass accepts exactly the domain names. Each is 1 to 255 chars with one optional leading dot. It is built from labels of letters, digits and hyphens, each at most 63 long. No label begins or ends with a hyphen, and no label is empty except after a trailing dot. Some char must be a letter. |
| CookieDomain.DomainNameExamples | src/std/http/cookie.rs:368-417 | ".go.dev" is accepted; "-go.dev", "go..dev", "go.dev-" and "10.0.0.1" are rejected. |
| CookieDomain.DomainNameChars | src/std/http/cookie.rs:368-417 | An accepted name is non-empty and made only of letters, digits, `-` and `.`. |
| CookieDomain.ValidCookieDomain | src/std/http/cookie.rs:419-429 | As written, a domain passes exactly when it is non-empty and has no colon. |
| CookieDomain.ValidCookieDomainAdmitsSemicolon | src/std/http/cookie.rs:424-427 | "example.com; Secure" passes the check, though it is not a domain name. |
| CookieDomain.ValidCookieDomainIntended | src/std/http/cookie.rs:419-429 | With the IP-address test restored, a passing domain is non-empty and made only of domain chars. |
| CookieDomain.IntendedDomainHasNoSeparators | src/std/http/cookie.rs:419-429 | Under the intended check a domain holds no `;`, space, `:` or `,`. |
| Cookies.ReadLine | src/std/http/cookie.rs:213-257 | One loop round yields the cookie of the line's first pair, or None at each `continue`. |
| Cookies.ReadCookies | src/std/http/cookie.rs:200-263 | The cookies are those of the lines in header order, at most one per line. |
| Cookies.FirstPart | src/std/http/cookie.rs:216-223 | The part is the text before the first `;`, or the whole line. |
| Cookies.PairName | src/std/http/cookie.rs:228-233 | The name is the text before the first `=`, or the whole pair. |
| Cookies.ReadCookiesSound | src/std/http/cookie.rs:234-257 | Every returned cookie passes the filter and has a valid name. Its value is one `parse_cookie_value` accepts, and every other field is at its default. |
| Cookies.ReadCookiesAtMostOnePerLine | src/std/http/cookie.rs:212-261 | There are never more cookies than header lines. |
| Cookies.ReadCookiesAppend | src/std/http/cookie.rs:212-261 | Reading two runs of lines gives the cookies of the first run, then those of the second. |
| Cookies.LineOfPair | src/std/http/cookie.rs:213-257 | A line `name=val` followed by attributes yields the cookie of the name and the parsed value when the name passes the filter, and nothing else. |
| Cookies.PlainLine | src/std/http/cookie.rs:213-257 | A plain `name=value` line reads back as exactly that cookie. |
| Cookies.ExampleParts | src/std/http/cookie.rs:588-592 | The names and values of the reading test are plain pairs. |
| Cookies.ReadCookiesExample | src/std/http/cookie.rs:588-624 | Two plain Cookie lines yield their two cookies, in header order. |
| Cookies.FirstPairOnly | src/std/http/cookie.rs:216-223 | As written, a line of two pairs yields only the first cookie, and a filter naming the second finds nothing. |
| Cookies.IntendedExtendsLine | src/std/http/cookie.rs:216-223 | The intended reader takes the written reader's cookie first, then the cookies of the remaining pairs. |
| Cookies.IntendedReadsBothPairs | src/std/http/cookie.rs:216-223 | The intended reader yields both cookies of a two-pair line, in order. |
| CookieText.SameSiteName | src/std/http/cookie.rs:323-337 | The default mode writes nothing, and any value written is None, Lax or Strict. |
| CookieText.SameSiteNeverWritten | src/std/http/cookie.rs:40-43 | With all four constants equal to 1, no SameSite attribute is ever written. |
| CookieText.SameSiteIntendedModes | src/std/http/cookie.rs:40-43 | With distinct constants, Lax, Strict and None are each written for exactly their own mode, and nothing is written for any other value. |
| CookieText.NatToDecimalValue | src/std/http/cookie.rs:311-316 | The digits `to_string` writes read back as the number, and only 0 starts with `0`. |
| CookieText.CookieString | src/std/http/cookie.rs:276-339 | The appended blocks produce the as-written text. It is empty for a VALID name; otherwise it is the pair followed by the attributes in source order. |
| CookieText.PathAttribute | src/std/http/cookie.rs:287-290 | `; Path=` and the sanitised path are written exactly for a non-empty path. |
| CookieText.DomainAttribute | src/std/http/cookie.rs:291-306 | A non-empty domain that passes the check is written without its leading dot; otherwise nothing is written. |
| CookieText.ExpiresAttribute | src/std/http/cookie.rs:307-310 | `; Expires=` and the formatted time are written exactly when the time is valid. |
| CookieText.MaxAgeAttribute | src/std/http/cookie.rs:311-316 | The attribute is the Max-Age text of the cookie's `max_age`. |
| CookieText.FlagAttribute | src/std/http/cookie.rs:317-322 | The HttpOnly and Secure keys are written exactly when their flag is set. |
| CookieText.SameSiteAttribute | src/std/http/cookie.rs:323-337 | The match arms, taken in order on the declared constants, give the attribute written. |
| CookieText.MaxAgeWritten | src/std/http/cookie.rs:311-316 | Max-Age is written exactly for a non-zero value. A positive value is written as digits that read back as it; a negative one is written as `0`. |
| CookieText.SerializedPieces | src/std/http/cookie.rs:283-337 | Split at `;`, the text is the pair followed by the attribute bodies in order, when no piece holds a `;` of its own. |
| CookieText.IntendedTextReadsBack | src/std/http/cookie.rs:276-339 | Round trip: the intended text of a cookie with a valid name reads back through the line reader as the name with the sanitised value. |
| CookieText.IntendedAttributesWritten | src/std/http/cookie.rs:276-339 | The intended text split at `;` starts with the `name=value` pair. The Path body appears exactly when there is a path, the Domain body exactly when the domain passes the check, and the Expires body exactly when there is a valid expiry. |
| CookieText.IntendedFlagsWritten | src/std/http/cookie.rs:276-339 | In the same pieces a Max-Age body appears exactly when Max-Age is not 0, with `0` for a negative one. HttpOnly and Secure appear exactly when set, and the SameSite body exactly when the mode is Lax, Strict or None. |
| CookieText.AsWrittenNeverReadsBack | src/std/http/cookie.rs:277-279 | As written, no cookie's text reads back as a cookie of the same name. |
| CookieText.AsWrittenDropsValidName | src/std/http/cookie.rs:277-279 | As written, a cookie named "Cookie-1" serialises to the empty text; the intended text is not empty. |
| TimeoutTime.DurToNs | src/timeout_list.rs:21-27 | The count fits in a `u64` and never exceeds the duration's exact nanoseconds. |
| TimeoutTime.DurToNsSaturates | src/timeout_list.rs:21-27 | The nanosecond count is exact below 2^64 and capped at `u64::MAX` above. |
| TimeoutTime.NsToDur | src/timeout_list.rs:29-32 | The result is a well-formed duration: its nanoseconds are below one second. |
| TimeoutTime.NsToDurRoundTrip | src/timeout_list.rs:29-32 | Converting nanoseconds to a duration and back gives the same count. |
| TimeoutTime.DurToNsRoundTrip | src/timeout_list.rs:21-27 | A duration whose count fits in 64 bits comes back unchanged. |
| TimeoutTime.NsToMs | src/timeout_list.rs:34-38 | The intended result is the ceiling: the smallest count of milliseconds covering the nanoseconds. |
| TimeoutTime.NsToMsAsWritten | src/timeout_list.rs:34-38 | As written, in `u64`: the result in nanoseconds always fits below 2^64, even where the ceiling would not. |
| TimeoutTime.NsToMsAgrees | src/timeout_list.rs:34-38 | The written formula equals the ceiling wherever its addition does not overflow. |
| TimeoutTime.NsToMsOverflows | src/timeout_list.rs:34-38 | At `u64::MAX` the written formula wraps to 0 instead of 18446744073710. |
| TimeoutList.Cmp | src/timeout_list.rs:114-118 | The entry with the earlier deadline is the greater one, and the later one the lesser. |
| TimeoutList.EntryEq | src/timeout_list.rs:100-104 | Two entries are equal exactly when the ordering finds them equal. |
| TimeoutList.CmpReversed | src/timeout_list.rs:114-118 | The reversed ordering is antisymmetric, as `Ord` requires. |
| TimeoutList.Earliest | src/timeout_list.rs:214-224 | The entry the heap yields has the earliest deadline of all entries. |
| TimeoutList.EarliestIsMaximum | src/timeout_list.rs:114-118 | No heap entry is greater than the one the heap yields. |
| TimeoutList.PopTimeout | src/timeout_list.rs:88-97 | The due prefix is popped and its data handed on in list order. The rest stays, and the next deadline, if any, lies after `now`. |
| TimeoutList.ExpiredSplit | src/timeout_list.rs:92-95 | The popped prefix is all due, and the timeout after it is not. |
| TimeoutList.RemainingSorted | src/timeout_list.rs:92-95 | What is left of a list in deadline order after popping stays in deadline order. |
| TimeoutList.SortedNoneDue | src/timeout_list.rs:92-95 | In a list in deadline order whose first timeout is not due, no timeout is due. |
| TimeoutList.RemainingIdempotent | src/timeout_list.rs:92-95 | Popping the due prefix a second time removes nothing more. |
| TimeoutList.ListInHeapIff | src/timeout_list.rs:136-140 | A list is non-empty exactly when it has a heap entry, and that entry carries its first deadline. |
| TimeoutList.InUseOfList | src/timeout_list.rs:136-140 | A list's `in_use` counter is 1 exactly when the list is non-empty. |
| TimeoutList.AddKeeps | src/timeout_list.rs:145-203 | Adding a timeout no earlier than every deadline of its list keeps the heap and the lists consistent and every list in deadline order. |
| TimeoutList.AddClockBound | src/timeout_list.rs:145-148 | No deadline lies beyond the latest clock reading plus its list's interval, and an add at a later reading keeps that so. |
| TimeoutList.AddValid | src/timeout_list.rs:145-148 | A timeout added at a clock reading no earlier than the last one keeps the state consistent and every list in deadline order. |
| TimeoutList.FireKeeps | src/timeout_list.rs:225-259 | One round of `schedule_timer` keeps the heap and the lists consistent and every list in deadline order. |
| TimeoutList.FireClockBound | src/timeout_list.rs:225-259 | A round only pops timeouts, so no deadline moves beyond the clock bound. |
| TimeoutList.FireDecreases | src/timeout_list.rs:209-262 | Each round lowers the number of due heap entries, so the loop ends. |
| TimeoutList.TopIsEarliestHead | src/timeout_list.rs:214-224 | The heap's top carries the earliest first deadline of all lists; an empty heap means every list is empty. |
| TimeoutList.ScheduleKeeps | src/timeout_list.rs:209-262 | After `schedule_timer` the heap and the lists are consistent and every list is in deadline order. |
| TimeoutList.ScheduleNoneDue | src/timeout_list.rs:209-262 | After `schedule_timer` no timeout of any list is due: every expired timeout was fired. |
| TimeoutList.ScheduleLeftBehind | src/timeout_list.rs:209-262 | Every list is what remains of it once its expired timeouts are popped; a list is dropped only when it emptied while the map held more than `HASH_CAP` lists. |
| TimeoutList.ScheduleRound | src/timeout_list.rs:212-260 | A due top entry makes `schedule_timer` fire that list's due prefix and go on from the state the round leaves. |
| TimeoutList.NextDelayIsEarliest | src/timeout_list.rs:216-224 | The returned delay is positive and reaches the earliest pending deadline of all timeouts. It is None exactly when every list is empty. |
| TimeoutList.TimeOutList.constructor | src/timeout_list.rs:129-134 | A new list has no interval lists and an empty heap. |
| TimeoutList.TimeOutList.InstallTimerBh | src/timeout_list.rs:136-140 | The counter is bumped, and the entry is pushed exactly when the counter was 0. |
| TimeoutList.TimeOutList.AddTimer | src/timeout_list.rs:145-203 | The timeout, due at `now` plus the interval, is appended to its interval's list and the list is installed in the heap. The result is true exactly when the list was empty. The clock reading is recorded and every list stays in deadline order. |
| TimeoutList.TimeOutList.FireEarliest | src/timeout_list.rs:212-260 | One loop round: pop the top, fire the list's due prefix, re-push or drop the list, keeping the state consistent. |
| TimeoutList.TimeOutList.ScheduleTimer | src/timeout_list.rs:209-262 | The loop's state and fired data are those of `Schedule`, nothing is due afterwards, and the delay is `NextDelay`. |
| TimeoutList.ScenarioTimers | src/timeout_list.rs:340-345 | The three `add_timer` calls at time 0 build the one-second list of 50 and 60 and the 1.4-second list of 70. |
| TimeoutList.TimerScenario | src/timeout_list.rs:340-345 | Timeouts 50 and 60 at one second and 70 at 1.4 seconds, added at time 0: at one second 50 and 60 fire, in order, and the next delay is 400 ms. |
| Spsc.BulkCount | src/std/queue/spsc.rs:109-136 | A bulk pop takes everything queued, but never past the end of the head block and never more than a positive `expect`. It takes at least one item when any is queued. |
| Spsc.WrapDifference | src/std/queue/spsc.rs:102-106 | The wrapping difference of the indices is the item count, so the indices meet exactly when the queue is empty. |
| Spsc.PushKeeps | src/std/queue/spsc.rs:38-54 | A push keeps the index and block counters consistent. |
| Spsc.PopKeeps | src/std/queue/spsc.rs:73-98 | Popping within the head block keeps the counters consistent. A block is freed only when a later one exists. |
| Spsc.Queue.constructor | src/std/queue/spsc.rs:27-35 | A new queue is empty, with both indices at 0 and one block. |
| Spsc.Queue.Size | src/std/queue/spsc.rs:102-106 | The size is the number of queued items. |
| Spsc.Queue.Peek | src/std/queue/spsc.rs:61-70 | The result is None exactly when the queue is empty, and otherwise the oldest item. |
| Spsc.Queue.Push | src/std/queue/spsc.rs:38-54 | The value is appended, the push index advances modulo 2^64, and a tail block is added exactly when the new index starts a block. |
| Spsc.Queue.Pop | src/std/queue/spsc.rs:73-98 | An empty queue yields None. Otherwise the oldest item is removed, the pop index advances, and the head block is freed exactly when the new index starts a block. |
| Spsc.Queue.BulkPopExpect | src/std/queue/spsc.rs:109-136 | The first `BulkCount` items are appended to the vector in order and removed from the queue. |
| Spsc.Queue.BulkPop | src/std/queue/spsc.rs:139-141 | This is a bulk pop with no limit. |
| Spsc.Queue.Drain | src/std/queue/spsc.rs:150-162 | Popping until empty yields every item in order, and leaves head and tail on the same block. |
| Spsc.PushThenPopAll | src/std/queue/spsc.rs:172-186 | Pushing 0..n and popping n times returns 0..n in order; then pop yields None and size is 0. |
| Spsc.BulkPopExample | src/std/queue/spsc.rs:189-206 | The test's bulk pops take `BLOCK_SIZE`, 8 and 9 items, and the vector holds 0..total in order. |
| OnceCells.OnceCell.constructor | src/std/lazy/mod.rs:422-424 | A new cell is empty. |
| OnceCells.OnceCell.FromValue | src/std/lazy/mod.rs:414-418 | The cell holds the value. |
| OnceCells.OnceCell.Get | src/std/lazy/mod.rs:429-432 | The result is the content exactly when there is one. |
| OnceCells.OnceCell.TryInsert | src/std/lazy/mod.rs:492-506 | An empty cell takes the value and returns it. A full cell is unchanged and returns its value with the rejected one. |
| OnceCells.OnceCell.Set | src/std/lazy/mod.rs:471-476 | An empty cell takes the value; a full cell is unchanged and hands the value back. |
| OnceCells.OnceCell.GetOrTryInit | src/std/lazy/mod.rs:565-579 | A full cell returns its content and `f` does not run. Otherwise `f` runs once: on success the cell stores and returns its value, on failure the cell stays empty. |
| OnceCells.OnceCell.GetOrInit | src/std/lazy/mod.rs:529-538 | The content comes back, stored from `f` only when the cell was empty; `f` runs exactly then. |
| OnceCells.OnceCell.SyncTryInsert | src/std/lazy/mod.rs:927-934 | Taking the value out of the local slot inside `get_or_init` behaves as `try_insert`. |
| OnceCells.OnceCell.Take | src/std/lazy/mod.rs:610-612 | The content comes back and the cell is left empty. |
| OnceCells.OnceCell.IntoInner | src/std/lazy/mod.rs:630-634 | The result is the content, as `get` sees it. |
| OnceCells.OnceCell.Clone | src/std/lazy/mod.rs:393-404 | The result is a fresh cell with the same content. |
| OnceCells.CellsEqual | src/std/lazy/mod.rs:406-410 | Two cells are equal exactly when both are empty or both hold equal values. |
| OnceCells.Lazy.constructor | src/std/lazy/mod.rs:686-688 | The cell is empty and the initialiser is held. |
| OnceCells.Lazy.Force | src/std/lazy/mod.rs:717-722 | The initialiser runs on first access only and is taken out; afterwards the cell holds its value, which is returned. |
| OnceCells.Lazy.IntoValue | src/std/lazy/mod.rs:693-699 | The result is the value when forced, and the initialiser otherwise. |
| OnceCells.SetTwice | src/std/lazy/mod.rs:463-469 | A second `set` returns its value and the first stays. |
| OnceCells.TryInsertTwice | src/std/lazy/mod.rs:484-490 | A second insertion reports the stored value with the rejected one. |
| OnceCells.GetOrInitTwice | src/std/lazy/mod.rs:523-527 | A second `get_or_init` returns the first value and does not run its initialiser. |
| OnceCells.FailThenInit | src/std/lazy/mod.rs:556-563 | A failing initialiser leaves the cell empty, so a succeeding one fills it. |
| OnceCells.TakeAfterSet | src/std/lazy/mod.rs:591-596 | `take` returns the content and empties the cell. |
| OnceCells.ForceTwice | src/std/lazy/mod.rs:712-714 | Two forces both return the initialiser's value, which runs once. |
| OnceCells.UnforcedIntoValue | src/std/lazy/mod.rs:693-699 | An unforced Lazy gives its initialiser back. |
| Poison.Flag.constructor | src/std/sync/poison.rs:13-17 | A new flag is not poisoned. |
| Poison.Flag.Get | src/std/sync/poison.rs:47-50 | The flag is poisoned exactly when the word is not 0. |
| Poison.Flag.Borrow | src/std/sync/poison.rs:20-29 | The guard records whether the thread was panicking. It is wrapped in a PoisonError exactly when the flag is set. |
| Poison.Flag.Done | src/std/sync/poison.rs:32-45 | The flag becomes set exactly when the holder started panicking while holding the lock and is not a cancelled coroutine. It is never cleared. |
| Poison.CancelDoesNotPoison | src/std/sync/poison.rs:32-45 | A cancelled coroutine unwinding does not poison the lock; a thread doing so does; a guard taken while already panicking never poisons. |
| Poison.MapResult | src/std/sync/poison.rs:57-65 | `f` is applied to what the result carries; Ok stays Ok and a poisoned result stays poisoned. |
| Poison.MapResultIdentity | src/std/sync/poison.rs:57-65 | Mapping with the identity changes nothing. |
| Poison.MapResultCompose | src/std/sync/poison.rs:57-65 | Mapping twice equals mapping once with the composition. |
| Poison.PanicWhileHeld | src/std/sync/poison.rs:20-45 | After a panic while the lock is held, the next borrow reports the poison, and a clean release does not clear it. |

## Left out

- `read_set_cookies` and `Cookie`'s `Time`-typed Expires: the `Time` type is not part of this model. The Expires check (`valid_cookie_expires`) and its formatting become an optional preformatted text passed to `CookieString`.
- Logging of dropped bytes and domains (`log::info!`) has no effect on results and is left out.
- `HeaderMap` is taken as the sequence of `Cookie` header values, in header order. `HeaderValue::to_str` is modelled as accepting visible ASCII and tab.
- IPv6 addresses in `valid_cookie_domain`: the intended check accepts dotted-quad IPv4 only.
- Spsc: the raw block links and the atomics are abstracted. Block nodes appear as head and tail block numbers, and the slots as the sequence of queued values. `BLOCK_SIZE` is taken as 32, a power of two dividing 2^64.
- Spsc.Queue.Push: requires fewer than 2^64 - 2 queued items. With 2^64 items the wrapping indices would meet and the queue would read as empty; the source does not guard against that.
- Spsc: `bulk_end` and `BlockNode::bulk_get` are not part of this model. Their result is specified by `BulkCount`, which matches `bulk_pop_test`.
- TimeoutList: `TimerThread` is left out. It is the thread that parks until the next deadline; its clock and parking are I/O.
- TimeoutList: the clock is the parameter `now`. The callback's calls become the returned `fired` sequence.
- TimeoutList: `TimeoutHandle` and removing a timeout through it are left out. The mpsc list is a sequence; the `Arc` sharing of a list between heap and map becomes naming the list by its interval.
- TimeoutList: the model runs on one thread. So the rechecks in `add_timer` and `schedule_timer` that guard against other threads (the write-lock recheck, the `is_empty` recheck, a non-zero `fetch_add`) are dead and not modelled.
- TimeoutList.TimerScenario: models the three timeouts added by the test's second thread only, as if the timer thread ran once, at one second. The test's other adds and its sleeps depend on thread timing.
- TimeoutList.Earliest: among entries with equal deadlines it picks the first. `BinaryHeap`'s choice among ties is unspecified; every property stated holds for any of them.
- TimeoutList.TimeOutList.AddTimer: requires `now + interval` to fit in a `u64`. The source leaves this overflow as a TODO; a release build would wrap and put the timeout out of deadline order, and a debug build would panic.
- TimeoutList.TimeOutList.AddTimer: requires each clock reading to be no earlier than the one before, as the monotonic clock behind `now()` guarantees. The reading is recorded in a ghost `clock` field.
- TimeoutTime: `Duration`'s `u32` nanoseconds are an unbounded `nat` below one second.
- OnceCells: the synchronised `OnceCell`'s blocking initialisation (`imp_std.rs`) is not part of this model. Only its `try_insert` is modelled, as run by one thread.
- OnceCells: panicking initialisers, `get_mut` and `Deref`/`DerefMut` are left out. The poisoned `Lazy`, whose initialiser panicked, is also left out.
- OnceCells.Lazy.IntoValue: requires a `Lazy` that is not poisoned. The source panics on a poisoned one.
- Poison: `thread::panicking()` and the coroutine's cancel state are parameters. The atomic word is a plain field.

## Findings

| source | as written | input that shows it | evidently intended | confidence | as-written member | corrected member |
|---|---|---|---|---|---|---|
| src/std/http/cookie.rs:277-279 | `Cookie::string` returns the empty text when the name IS valid. | A cookie named "Cookie-1" | Return the empty text only for an invalid name, as the doc comment and Go's `(*Cookie).String` do. | high, not executed | CookieText.AsWrittenDropsValidName | CookieText.IntendedTextReadsBack |
| src/std/http/cookie.rs:40-43 | All four SameSite constants are 1, so the match always takes the first arm and no SameSite attribute is written. | Any `same_site` value, e.g. 3 (Go's strict mode): no attribute is written | Distinct constants, as in Go: default 1, lax 2, strict 3, none 4. | high, not executed | CookieText.SameSiteNeverWritten | CookieText.SameSiteIntendedModes |
| src/std/http/cookie.rs:216-223 | `read_cookies` reads only the first `;`-separated pair of each header line; the rest is cut off and never parsed. | The header line "a=1; b=2" | Every pair of the line is read, as Go's `readCookies` loop does. | high, not executed | Cookies.FirstPairOnly | Cookies.IntendedReadsBothPairs |
| src/std/http/cookie.rs:424-427 | `valid_cookie_domain` accepts any non-empty text without a colon, because the IP-address test is a TODO. | The domain "example.com; Secure" | Accept a domain name or an IP address only. | high, not executed | CookieDomain.ValidCookieDomainAdmitsSemicolon | CookieDomain.IntendedDomainHasNoSeparators |
| src/timeout_list.rs:34-38 | `ns_to_ms` adds 999999 before dividing, in `u64`, so near `u64::MAX` the sum wraps. | `ns` equal to `u64::MAX` | The ceiling of `ns / 1000000` without intermediate overflow. | medium, not executed | TimeoutTime.NsToMsOverflows | TimeoutTime.NsToMs |
