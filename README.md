# ChatGPT desktop for Unix: clipboard bridge, profile and persistence, in Dafny

This project models and proves properties of two sequential pieces of the
desktop wrapper (a Qt WebEngine view that shows chatgpt.com).

**The clipboard bridge** (`src/chatwebpage.cpp`) comes first. A script injected
into every frame copies code blocks like this:
- it encodes the text as UTF-8 and then base64;
- it sends the result to the host inside a JavaScript `prompt` whose message
  starts with a bridge prefix.

The page (`ChatWebPage`) intercepts prompts that carry the prefix. It first
checks the sender's origin against an allow-list of three domains. It then
decodes the payload, bounds it at 8 MiB, rejects blank text and commits the
rest to the clipboard. Each prompt is answered `rejected`, `empty`, `invalid`,
`empty-text` or `ok`. A prompt without the prefix is left to the default
handling.

**The view** (`src/chatview.cpp`) does five things:
- it resolves the storage and cache roots away from volatile mounts;
- it locks the profile and falls back to isolated paths when another process
  holds the lock;
- it builds a per-process bridge prefix from a UUID and substitutes it into
  the injected script;
- it runs a debounced flush controller driven by cookie changes, timer
  timeouts, `aboutToQuit` and destruction;
- it routes downloads through a save dialog.

The modules follow that structure:

| module | file | what it holds |
|---|---|---|
| `Strings` | strings.dfy | prefixes and suffixes, ASCII lower-casing, decimal digits, replace-all |
| `Base64` | base64.dfy | the encoding `btoa` writes (RFC 4648 section 4); the lenient decoder `QByteArray::fromBase64` with default options; `QString::toLatin1` |
| `Utf8` | utf8.dfy | `TextEncoder`; `QString::fromUtf8` (one U+FFFD per offending byte, a leading byte-order mark dropped) |
| `Trust` | trust.dfy | `IsTrustedClipboardHost`, `IsTrustedClipboardOrigin`, the injected script's trust regex |
| `Bridge` | bridge.dfy | the `javaScriptPrompt` chain as a function `Decide`; the class `ChatWebPage` with `CommitClipboardText` and `JavaScriptPrompt` |
| `GuestScript` | guest.dfy | `encodeTextAsBase64` (the nested chunk loops) and `sendNativeCopy` |
| `Paths` | paths.dfy | `QDir::filePath`; `QFileInfo::fileName`, `path` and `absolutePath` |
| `Profile` | profile.dfy | root resolution (a method that reassigns the roots step by step), lock fallback, isolated paths |
| `Persistence` | persistence.dfy | the flush controller as a state machine over a `Controller` value |
| `Downloads` | downloads.dfy | the download request as a class; the suggested path; the outcome of a pick |
| `View` | view.dfy | the class `ChatView`. Its constructor and its flush and download methods are proved against the functions above. The module also holds the as-written prefix handling of the page and its consequences. |

The environment enters as parameters:
- the writable locations and the home and working directories;
- the lock outcome, the process id, the clock and the UUID;
- the save dialog's answer and whether `QDir::mkpath` succeeds (`makePath`);
- the captured native prompt;
- whether a GUI application instance exists.

## Model

| member | source | states |
|---|---|---|
| Trust.RegexAgreesWithSuffixTest | src/chatview.cpp:120-123 | For one allowed domain, the case-insensitive regex `(^\|\.)domain$` matches a host exactly when the host lowered equals the domain or ends with "." and the domain. |
| Trust.ScriptAndHostAgree | src/chatview.cpp:120-123 | The injected script's `trusted` test accepts exactly the hosts that `IsTrustedClipboardHost` trusts. |
| Trust.TrustedHostIsLongEnough | src/chatwebpage.cpp:17-38 | `IsTrustedClipboardHost`: a trusted host is never empty and is at least as long as the shortest allowed domain. |
| Trust.TrustIgnoresCase | src/chatwebpage.cpp:23 | `IsTrustedClipboardHost`: two hosts equal up to ASCII case are both trusted or both untrusted. |
| Trust.SubdomainOfTrustedIsTrusted | src/chatwebpage.cpp:24-35 | `IsTrustedClipboardHost`: a dot-separated subdomain of a trusted host is trusted. |
| Trust.ApexTrusted | src/chatwebpage.cpp:24-35 | `IsTrustedClipboardHost`: each of chatgpt.com, openai.com and oaistatic.com is trusted. |
| Trust.OnlyItsOwnDomain | src/chatwebpage.cpp:24-35 | `MatchesDomain`: a name that ends with one allowed domain matches no other allowed domain. |
| Trust.OwnDomainNeedsDot | src/chatwebpage.cpp:24-35 | `MatchesDomain`: `front + domain` matches the domain only when `front` ends with a dot. |
| Trust.LookalikeRejected | src/chatwebpage.cpp:23-37 | `IsTrustedClipboardHost`: a host made of non-empty text with no trailing dot, followed by an allowed domain, is untrusted. |
| Trust.ForeignMarkRejected | src/chatwebpage.cpp:23-37 | `IsTrustedClipboardHost`: a host whose fifth character from the end, lowered, is not 't', 'i' or 'c' is untrusted. |
| Trust.ExampleServiceSubdomainTrusted | src/chatwebpage.cpp:24-25 | "chat.chatgpt.com" is trusted. |
| Trust.ExampleUpperCaseTrusted | src/chatwebpage.cpp:23-34 | "CDN.OAISTATIC.COM" is trusted. |
| Trust.ExampleLookalikeRejected | src/chatwebpage.cpp:23-37 | "evilchatgpt.com" is untrusted. |
| Trust.ExampleTrustedPrefixRejected | src/chatwebpage.cpp:23-37 | "chatgpt.com.evil.net" is untrusted. |
| Trust.EmbeddedHostOf | src/chatwebpage.cpp:112-114 | `EmbeddedHost`: the host read back from "https://" + H + tail is H, for an H without '/', '?', '#', '@' or ':' and a tail that is empty or starts a path, query or fragment. |
| Trust.BlobOriginJudgedByWrappedHost | src/chatwebpage.cpp:107-115 | `IsTrustedClipboardOrigin`: a valid blob origin "blob:https://H..." is trusted exactly when its wrapped host H is. |
| Trust.HttpsOriginJudgedByItsHost | src/chatwebpage.cpp:102-105 | `IsTrustedClipboardOrigin`: a valid https origin is trusted exactly when its own host is, whatever page is shown. |
| Trust.OtherOriginsJudgedByPageHost | src/chatwebpage.cpp:118-126 | `IsTrustedClipboardOrigin`: every other origin is trusted exactly when the current page's host is: about, data, empty and other schemes, invalid URLs, and blob URLs that do not wrap https. |
| Strings.ToLowerAscii | src/chatwebpage.cpp:23 | The lowered host keeps its length and has no upper-case ASCII letter. Only upper-case letters change, and a host without one is left as it is. |
| Strings.ToLowerAsciiIdempotent | src/chatwebpage.cpp:23 | Lowering an already lowered host changes nothing. |
| Strings.PrefixUntil | src/chatwebpage.cpp:112-114 | The result is a prefix of the input with no stop character, followed by a stop character or the end. |
| Strings.AfterLast | src/chatwebpage.cpp:112-114 | The result is a suffix without the character and is either the whole text or preceded by the character. |
| Strings.NatDigitsInjective | src/chatview.cpp:84-86 | Different process ids print as different decimal texts. |
| Strings.ReplaceSingle | src/chatview.cpp:302-304 | Replacing the only occurrence of a pattern puts the replacement exactly in its place. |
| Base64.DecodeEncode | src/chatwebpage.cpp:75 | `fromBase64` gives back exactly the bytes that `btoa` encoded. |
| Base64.Latin1OfEncode | src/chatwebpage.cpp:75 | `toLatin1` leaves base64 text unchanged, because every character btoa writes is ASCII. |
| Base64.EncodeIsAscii | src/chatview.cpp:258 | Every character of the encoding is below U+0080. |
| Base64.EncodeEmpty | src/chatview.cpp:258 | The encoding is empty exactly when the bytes are. |
| Base64.EncodeLength | src/chatview.cpp:258 | n bytes encode to 4 * ceil(n / 3) characters. |
| Base64.PackLength | src/chatwebpage.cpp:75 | k alphabet characters decode to floor(6k / 8) bytes. |
| Base64.PackAppend | src/chatwebpage.cpp:75 | After a multiple of four alphabet characters, the rest decodes on its own. |
| Base64.SextetsAppend | src/chatwebpage.cpp:75 | The decoder's alphabet values of a concatenation are the values of each part, in order. |
| Base64.ToLatin1 | src/chatwebpage.cpp:75 | The result keeps the length and is Latin-1 text. Latin-1 characters are kept, so Latin-1 text is left as it is. |
| Utf8.DecodeEncode | src/chatwebpage.cpp:85 | `fromUtf8` of the `TextEncoder` bytes gives the text back, less a leading U+FEFF, which is read as a byte-order mark. |
| Utf8.DecodeOneEncodeChar | src/chatwebpage.cpp:85 | The decoder reads back one encoded character, and its width, whatever follows. |
| Utf8.EncodeStartsWithBom | src/chatwebpage.cpp:85 | The encoded bytes start with EF BB BF exactly when the text starts with U+FEFF. |
| Utf8.EncodeEmpty | src/chatview.cpp:247 | The encoding is empty exactly when the text is. |
| Utf8.DecodeLength | src/chatwebpage.cpp:85 | n bytes decode to at least (n - 3) / 4 characters. |
| Utf8.DecodeBodyLength | src/chatwebpage.cpp:85 | Without a byte-order mark, each decoded character reads one to four bytes. |
| Utf8.EncodeChar | src/chatview.cpp:247 | Each character takes one to four bytes. |
| Bridge.TrimmedEmptyIffBlank | src/chatwebpage.cpp:86 | `trimmed().isEmpty()` holds exactly for text made only of `QChar::isSpace` characters. |
| Bridge.TrimStart | src/chatwebpage.cpp:86 | The result is a suffix of the input; what was removed is blank; the result does not start with a space. |
| Bridge.TrimEnd | src/chatwebpage.cpp:86 | The result is a prefix of the input; what was removed is blank; the result does not end with a space. |
| Bridge.Literal | src/chatwebpage.cpp:61-95 | The result literal is "ok" exactly for the Ok answer. |
| Bridge.PassThroughIffUnprefixed | src/chatwebpage.cpp:53-56 | `Decide`: a message is handed to the default handling exactly when it does not start with the prefix. Every prefixed message is answered. |
| Bridge.RejectedIffUntrusted | src/chatwebpage.cpp:58-64 | `Decide`: a message is answered "rejected" exactly when it is prefixed and the origin is untrusted, whatever its payload. |
| Bridge.BarePrefixIsEmpty | src/chatwebpage.cpp:66-72 | `Decide`: the bare prefix from a trusted origin is answered "empty". |
| Bridge.UndecodableRemainderIsInvalid | src/chatwebpage.cpp:74-82 | `Decide`: a non-empty remainder with fewer than two alphabet characters decodes to nothing and is answered "invalid". |
| Bridge.CapDecidesValidity | src/chatwebpage.cpp:13 | `Decide`: a payload of non-empty bytes is answered "invalid" exactly when it is larger than 8 MiB. A payload of exactly 8 MiB is accepted. |
| Bridge.GuestMessageOutcome | src/chatwebpage.cpp:66-97 | `Decide`: the guest's message for non-empty text is answered in one of three ways. Above the cap it is "invalid". Otherwise it is "empty-text" or "ok", with the text as sent (a leading U+FEFF removed). |
| Bridge.GuestTextArrives | src/chatwebpage.cpp:66-97 | `Decide`: the bridge commits, unchanged, any text under these conditions: it comes from a trusted origin, is not blank, does not start with U+FEFF and is within the cap. |
| Bridge.OkIsTrustedMeaningfulAndBounded | src/chatwebpage.cpp:54-97 | `Decide`: text answered "ok" meets all of these: the message was prefixed and came from a trusted origin; the payload was non-empty and within the cap; the text is that payload decoded; the text is not blank. |
| Bridge.ChatWebPage.constructor | src/chatwebpage.h:9-11 | The page keeps the prefix it is given, with nothing committed yet. |
| Bridge.ChatWebPage.CommitClipboardText | src/chatwebpage.cpp:129-164 | Appends the text to the committed texts only when the text is not blank and an application instance exists. Otherwise nothing changes. |
| Bridge.ChatWebPage.JavaScriptPrompt | src/chatwebpage.cpp:46-98 | Unprefixed messages are delegated. All others are handled, with the answer's literal written when a result pointer is given. The text is committed exactly once, and only on "ok". |
| GuestScript.Btoa | src/chatview.cpp:258 | `btoa` succeeds exactly when every character is at most U+00FF. The host's decoder reads what it writes back as the string's character codes. |
| GuestScript.Binary | src/chatview.cpp:253-255 | The binary string has one character per byte. `btoa` accepts it, and its character codes are the bytes again. |
| GuestScript.EncodeTextAsBase64 | src/chatview.cpp:242-259 | The chunked loops produce the base64 of the text's UTF-8 bytes. |
| GuestScript.SendNativeCopy | src/chatview.cpp:261-274 | Reports a copy exactly when all of these hold: the text is non-empty, a native prompt was captured, and the prompt's answer to prefix + base64 is "ok". |
| Paths.FileName | src/chatview.cpp:456 | The file name contains no '/', ends the path, and is the whole path or follows a '/'. |
| Paths.AbsoluteName | src/chatview.cpp:450-451 | An absolute path is kept unchanged, and every result ends with the path it was given. |
| Paths.AbsoluteNameOfRelative | src/chatview.cpp:450-451 | `AbsoluteName`: a relative path gets the working directory in front; the result starts with the directory and is directory + path exactly when the directory already ends with '/', directory + '/' + path otherwise. Under an absolute working directory the result is absolute. |
| Paths.FileNameOfJoin | src/chatview.cpp:428 | The file name of dir joined with a plain name is that name. |
| Paths.JoinPlain | src/chatview.cpp:79 | A directory without a trailing '/' and a relative name are joined with exactly one '/'. |
| Paths.SplitAndJoin | src/chatview.cpp:461-462 | An absolute path without empty segments (no "//") and with a file name is its directory joined with its file name. |
| Profile.ResolveRoot | src/chatview.cpp:42-50 | Reassigning the root step by step gives the resolved root, which ends with the application suffix. |
| Profile.ResolveProfileRoots | src/chatview.cpp:34-61 | The storage root comes from the first non-empty data location and the cache root from the cache location. Both are resolved off volatile mounts and both end with "chatgpt-desktop-unix". |
| Profile.RootEndsWithSuffix | src/chatview.cpp:48-50 | `ResolvedRoot`: every resolved root ends with the application suffix. |
| Profile.StableCandidateKept | src/chatview.cpp:42-50 | `ResolvedRoot`: a usable candidate is kept as it is, or with "/chatgpt-desktop-unix" appended when the suffix is missing. |
| Profile.VolatileCandidateReplaced | src/chatview.cpp:42-58 | `ResolvedRoot`: an empty or volatile candidate is replaced. Storage goes to ~/.local/share/chatgpt-desktop-unix and the cache to ~/.cache/chatgpt-desktop-unix. |
| Profile.ResolutionIdempotent | src/chatview.cpp:48-50 | `ResolvedRoot`: resolving a resolved root again changes nothing, for any fallback and any candidate other than "/run". |
| Profile.RunIsNotIdempotent | src/chatview.cpp:42-50 | `ResolvedRoot`: "/run" is kept, and the root it gives, "/run/chatgpt-desktop-unix", would itself be replaced. |
| Profile.LockedUsesPrimary | src/chatview.cpp:75-76 | `ActiveRoots`: with the lock held, the active paths are the primary roots. |
| Profile.IsolatedRootsAreChildren | src/chatview.cpp:79-88 | `ActiveRoots`: without the lock, each active path is its root + "/" + the same "isolated-pid-ms" name, which differs from the root and from the lock file. |
| Profile.IsolatedSuffixDeterminesPid | src/chatview.cpp:84-86 | `IsolatedSuffix`: equal isolated names have equal process ids. |
| Profile.ConcurrentStartsGetDistinctProfiles | src/chatview.cpp:75-96 | `ActiveRoots`: two processes with different ids, at most one of which holds the lock, share neither a storage path nor a cache path. |
| Persistence.FlushAsyncOutcome | src/chatview.cpp:365-383 | `FlushAsync`: the flush does nothing while a flush is in progress, without a profile, or when clean. Otherwise it ends clean and idle, with one cookie store write when there is a store. |
| Persistence.FlushSyncForcesWrite | src/chatview.cpp:385-405 | `FlushSync`: the first synchronous flush writes even when clean. It marks shutdown complete and waits once. Right after the flush, before any event the wait delivers, the timer is stopped and the state is clean. |
| Persistence.ChangesAfterShutdownStayUnflushed | src/chatview.cpp:385-405 | `FlushSync`: cookie changes that arrive once the synchronous flush has run leave the state dirty with the timer re-armed. The destructor's synchronous flush that follows neither writes nor waits again. |
| Persistence.FlushSyncIdempotent | src/chatview.cpp:385-389 | `FlushSync`: a second synchronous flush changes nothing. |
| Persistence.ShutdownThenDestroy | src/chatview.cpp:344-354 | `aboutToQuit` followed by destruction ends where `aboutToQuit` alone does. |
| Persistence.StepKeepsAtRest | src/chatview.cpp:356-405 | `Step` (through `MarkDirty`, `Timeout`, `FlushAsync` and `FlushSync`): every event keeps the invariant: no flush in progress, and the shutdown wait has run exactly when shutdown is complete. |
| Persistence.RunKeepsAtRest | src/chatview.cpp:356-405 | Any sequence of events keeps that invariant. |
| Persistence.InitialAtRest | src/chatview.cpp:320-326 | The freshly constructed controller satisfies that invariant. |
| Persistence.ShutdownWaitsAtMostOnce | src/chatview.cpp:385-405 | From construction, whatever happens, the bounded shutdown wait runs at most once and no flush is left in progress. |
| Persistence.BurstDefersFlush | src/chatview.cpp:356-363 | `MarkDirty` over `Run`: a burst of cookie changes writes nothing. It leaves the state dirty, with the timer due 1200 ms after the last change. |
| Persistence.BurstCoalesces | src/chatview.cpp:320-326 | `Timeout` after a burst: a burst followed by a tick writes exactly once (given a store) once 1200 ms have passed since the last change, and never before. |
| Persistence.TickWithinIntervalDoesNothing | src/chatview.cpp:320-326 | A timer tick before the deadline set by the latest change (`MarkDirty`) changes nothing. |
| Persistence.RunAppend | src/chatview.cpp:356-405 | Running two event sequences one after the other is running their concatenation. |
| Downloads.SuggestedName | src/chatview.cpp:425-427 | The suggested name is the request's name when that name is not empty, and "download" when it is. |
| Downloads.DownloadDirectoryPath | src/chatview.cpp:407-417 | The directory is the download location when there is one, and home + "/Downloads" otherwise. |
| Downloads.ApplyPick | src/chatview.cpp:434-463 | The request is cancelled, with its name and directory unchanged, in three cases: an empty pick, a directory that cannot be created, or a pick without a file name (the three `TargetFor` cancellations). Otherwise it is accepted with the pick's absolute directory and file name. |
| Downloads.SuggestedPathNamesFile | src/chatview.cpp:425-428 | The dialog's starting path names the suggested file. |
| Downloads.SavedDownloadIsNamed | src/chatview.cpp:450-463 | `TargetFor`: a saved download has a non-empty file name without '/' that ends the pick. Its directory is the pick's absolute directory, which could be created. |
| Downloads.DirectoryPickCancels | src/chatview.cpp:456-460 | `TargetFor`: a pick that ends with '/' has no file name and cancels. |
| Downloads.SaveLandsOnPick | src/chatview.cpp:450-463 | `TargetFor`: an absolute pick without empty segments (no "//") whose directory can be created is saved at exactly the picked path. |
| Downloads.DownloadRequest.constructor | src/chatview.cpp:419-427 | A new request holds its suggested name and is still requested. |
| Downloads.DownloadRequest.Cancel | src/chatview.cpp:435 | The request ends cancelled. |
| Downloads.DownloadRequest.Accept | src/chatview.cpp:463 | The request ends accepted. |
| Downloads.DownloadRequest.SetDownloadDirectory | src/chatview.cpp:461 | The directory is set to the one given. |
| Downloads.DownloadRequest.SetDownloadFileName | src/chatview.cpp:462 | The file name is set to the one given. |
| View.BuildClipboardBridgePrefix | src/chatview.cpp:23-27 | The prefix starts with the fixed marker and ends with "__". |
| View.PrefixDeterminesUuid | src/chatview.cpp:23-27 | Different UUIDs give different prefixes. |
| View.ScriptCarriesPrefix | src/chatview.cpp:302-304 | With one placeholder in the template, the injected script is the template with the prefix in its place. |
| View.ChatView.constructor | src/chatview.cpp:30-349 | It resolves the roots and the lock path, and chooses the active paths from the lock outcome. The page gets the per-process prefix, and the script gets the prefix substituted in. The flush controller starts clean and idle. |
| View.ChatView.MarkPersistentStateDirty | src/chatview.cpp:356-363 | The state becomes dirty and the timer is restarted to 1200 ms from now. |
| View.ChatView.FlushPersistentStateAsync | src/chatview.cpp:365-383 | The new state is the asynchronous flush of the old one. |
| View.ChatView.FlushPersistentStateSync | src/chatview.cpp:385-405 | The new state is the synchronous flush of the old one. |
| View.ChatView.TimerDue | src/chatview.cpp:320-326 | When the deadline is reached the timer stops and the state is flushed. Before that nothing changes. |
| View.ChatView.HandleDownloadRequest | src/chatview.cpp:419-464 | A null request is ignored. Otherwise the dialog is offered `SuggestedPath` and, through `ApplyPick`, the request is cancelled unchanged in three cases: an empty pick, a directory that cannot be created, or a pick without a file name. In every other case it is accepted with the pick's absolute directory and file name. |
| View.AsWrittenPayloadHasUuidBytes | src/chatwebpage.cpp:66-75 | `DecideAsWritten`'s payload: as written, the decoded payload of the guest's genuine message is 24 bytes decoded from the UUID, followed by the copied bytes. |
| View.AsWrittenArrivingTextIsLonger | src/chatwebpage.cpp:66-97 | `DecideAsWritten`: as written, any text answered "ok" for the guest's message is long enough to hold the 24 extra bytes as well. |
| View.AsWrittenCorruptsCopiedText | src/chatwebpage.cpp:54-97 | `DecideAsWritten`: as written, copying "hi" with a session prefix never commits "hi". |
| View.AsWrittenAcceptsForgedPrompt | src/chatwebpage.cpp:54-97 | `DecideAsWritten`: as written, the fixed marker followed by "aGk=" from a trusted origin commits "hi". With the page's own prefix the same prompt is delegated. |
| View.SessionPrefixNeedsUuid | src/chatwebpage.h:25-26 | `Decide` with the page's prefix: with the page's own prefix, every answered message carries the session's UUID right after the marker. |
| View.SessionPrefixDeliversText | src/chatview.cpp:106-109 | `Decide` with the page's prefix: with the page's own prefix, the guest's message for meaningful text within the cap commits exactly that text. |

## Left out

- `src/chatwebpage.cpp:54` and `src/chatwebpage.cpp:66` test and strip the fixed marker `kCopyPrefix`. Two other places intend a per-page prefix:
  - the header (`src/chatwebpage.h:9-11`, `:26`), which declares the prefix field and a constructor that takes it;
  - the view (`src/chatview.cpp:106-109`), which passes the prefix in.

  `ChatWebPage.JavaScriptPrompt` follows the header and the view. The chain as written is `View.DecideAsWritten`; see the findings below.
- The two-argument constructor at `src/chatwebpage.cpp:41` does not match the three-argument declaration. The model's constructor takes the prefix, as the declaration does.
- `src/chatview.h` does not declare the lock, timer and flag members that `chatview.cpp` uses. The model makes them fields of `ChatView` that start false and idle.
- `QStandardPaths`, `QDir::homePath`, `QLockFile`, `QCoreApplication::applicationPid`, `QDateTime` and `QUuid` are inputs. They are foreign calls with no logic of their own in this code.
- A failed `QDir::mkpath` of the profile paths, and the other `qWarning` diagnostics, are not modelled: those failures are only logged. In the download handler, mkpath's answer is the input `makePath`, because there it decides the outcome.
- The `QWebEngineProfile` settings, `setPage`, `JavascriptCanAccessClipboard` and the initial `load` are not modelled. They configure Qt and carry no logic. The page's current host starts as "chatgpt.com".
- Pieces of the clipboard commit:
  - the actual `QClipboard` writes to both targets;
  - the queued invocation on the event loop;
  - the 150 ms re-assert.

  A commit is recorded as the text appended to `committed`. The missing pieces are foreign and asynchronous.
- The cookie store's dummy `deleteCookie` is counted in `storeWrites`, and the 120 ms `QEventLoop` wait in `shutdownWaits`. Both are foreign calls. `loadAllCookies` is not modelled.
- The debounce timer is always present, and the profile always exists after construction, as in the constructor. The cases where those pointers are null are therefore not reachable in the model.
- The injected script's DOM work is not modelled:
  - the copy-control heuristics and the search for the nearest `<pre>` (which uses floating-point distances);
  - the event listener and the `\r\n` normalisation;
  - the already-installed guard;
  - the 150 ms resend and the JavaScript `trim` before sending.

  Only the encoder, the prompt call and the trust regex carry bridge logic.
- `typeof text !== "string"` in `encodeTextAsBase64` is not modelled: Dafny's `string` type always holds a string.
- JavaScript strings are sequences of UTF-16 code units. The model's text is a sequence of Unicode scalar values, so lone surrogates (which `TextEncoder` turns into U+FFFD) are not modelled.
- Case folding is ASCII only. The allow-list domains are ASCII. A host's non-ASCII letters are kept as they are, rather than mapped as Qt's `toLower` would.
- URL parsing is reduced to reading an origin's validity, scheme, host and text, plus the wrapped host of a blob URL. The rest of `QUrl` is not modelled: validation, IDNA, percent-decoding, IPv6 literals and ports. `EmbeddedHost` cuts the authority at the last '@' and the first ':' after it, where QUrl takes the first '@' and the last ':' and rejects a host left holding either. The two differ only on authorities with several '@' or several ':'.
- `QDir::cleanPath` is not applied in `AbsolutePath`. `SplitAndJoin` and `SaveLandsOnPick` are stated for paths without empty segments (no "//") instead; such a path may still hold the "." and ".." segments that `QDir::cleanPath` would remove.
- The `stateChanged` diagnostics of a download, and `QFileDialog` itself, are left out. The dialog's answer is the input `chooseFile`.
- `src/main.cpp` and `src/appwindow.cpp` are not part of this model. They hold signal plumbing and window chrome.
- Persistence.FlushSyncForcesWrite: its clean, timer-stopped result is the state right after the flush, before the 120 ms `QEventLoop` wait. That nested event loop still delivers `cookieAdded`/`cookieRemoved` (`src/chatview.cpp:332-339`), so in the program such a notification can leave the state dirty, with the debounce timer re-armed, once `m_shutdownFlushComplete` is set. The model takes the wait as one step and delivers no events inside it. `ChangesAfterShutdownStayUnflushed` states what follows for changes that come after the flush: the destructor does not flush them. The at-most-once wait (`ShutdownWaitsAtMostOnce`) is unaffected: the 1200 ms timer cannot fire within 120 ms, and nothing re-enters `FlushSync` while it waits.
- Profile.ResolutionIdempotent: stated only for candidates other than "/run". `Profile.RunIsNotIdempotent` proves why: "/run" passes the volatile test, but the root it resolves to does not.

## Findings

| source | as written | input that shows it | evidently intended | confidence | as-written member | corrected member |
|---|---|---|---|---|---|---|
| src/chatwebpage.cpp:54 | The prompt is tested against the fixed marker `__CHATGPT_DESKTOP_COPY__`, not the page's per-process prefix. | A page script on a trusted origin that never saw the prefix calls `prompt("__CHATGPT_DESKTOP_COPY__aGk=")`. It is answered "ok" and "hi" is committed. | Test the message against the page's own prefix (`src/chatwebpage.h:25-26`), so that only a script that knows the UUID can commit. | not executed; high: the header's comment states the intent | View.AsWrittenAcceptsForgedPrompt | View.SessionPrefixNeedsUuid |
| src/chatwebpage.cpp:66 | Only the fixed marker is stripped from the guest's message, which starts with the whole session prefix `__CHATGPT_DESKTOP_COPY__<uuid>__`. | The guest copies "hi" with the session prefix. The decoder also reads the UUID's 32 hex digits and puts 24 bytes of junk before "hi", so "hi" is never committed. | Strip the whole session prefix, so that the decoded text is exactly the text copied. | not executed; high | View.AsWrittenCorruptsCopiedText | View.SessionPrefixDeliversText |
